/**
 * The run-length-encoded snake of src/snake.rs: a start point (the head) and
 * a deque of segments, each a heading and a length, walked from the head
 * toward the tail on a 300 × 300 board whose edges wrap around.
 */
module Snakes {

  import opened Int32

  const BOARD_WIDTH: int := 300
  const BOARD_HEIGHT: int := 300

  datatype Direction = XPositive | XNegative | YPositive | YNegative {
    predicate Horizontal() {
      this == XPositive || this == XNegative
    }
  }

  datatype TurnDirection = Left | Right

  datatype Point2D = Point2D(x: I32, y: I32)

  /** One run of the body: from the previous corner, `length` steps along `direction`. */
  datatype SnakeSegment = SnakeSegment(direction: Direction, length: I32)

  /** The step along x: one for the horizontal headings, signed by the heading, zero otherwise. */
  function XOffset(d: Direction): (dx: I32)
    ensures dx != 0 <==> d.Horizontal()
    ensures dx == 1 <==> d == XPositive
    ensures dx == -1 <==> d == XNegative
  {
    match d
    case XNegative => -1
    case XPositive => 1
    case YNegative => 0
    case YPositive => 0
  }

  /** The step along y: one for the vertical headings, signed by the heading, zero otherwise. */
  function YOffset(d: Direction): (dy: I32)
    ensures dy != 0 <==> !d.Horizontal()
    ensures dy == 1 <==> d == YPositive
    ensures dy == -1 <==> d == YNegative
  {
    match d
    case YNegative => -1
    case YPositive => 1
    case XNegative => 0
    case XPositive => 0
  }

  /** The other heading on the same axis. */
  function Opposite(d: Direction): (o: Direction)
    ensures o != d && o.Horizontal() == d.Horizontal()
  {
    match d
    case YNegative => YPositive
    case YPositive => YNegative
    case XNegative => XPositive
    case XPositive => XNegative
  }

  /** `TurnDirection::turn`: a heading on the other axis. */
  function Turned(t: TurnDirection, d: Direction): (r: Direction)
    ensures r.Horizontal() != d.Horizontal()
  {
    match t
    case Left => (
      match d
      case XNegative => YPositive
      case XPositive => YNegative
      case YNegative => XNegative
      case YPositive => XPositive)
    case Right => (
      match d
      case XNegative => YNegative
      case XPositive => YPositive
      case YNegative => XPositive
      case YPositive => XNegative)
  }

  /** Every heading moves along exactly one axis, by one step. */
  lemma OffsetsAreUnitAxis(d: Direction)
    ensures (XOffset(d) == 0) != (YOffset(d) == 0)
    ensures XOffset(d) in {-1, 0, 1} && YOffset(d) in {-1, 0, 1}
  {
    match d
    case XPositive =>
    case XNegative =>
    case YPositive =>
    case YNegative =>
  }

  /** Different headings have different offsets. */
  lemma OffsetsInjective(d: Direction, e: Direction)
    requires XOffset(d) == XOffset(e) && YOffset(d) == YOffset(e)
    ensures d == e
  {
    match d
    case XPositive =>
    case XNegative =>
    case YPositive =>
    case YNegative =>
  }

  /** `opposite` is an involution that reverses the heading. */
  lemma OppositeReverses(d: Direction)
    ensures Opposite(Opposite(d)) == d
    ensures Opposite(d) != d
    ensures XOffset(Opposite(d)) == -XOffset(d) && YOffset(Opposite(d)) == -YOffset(d)
  {
    match d
    case XPositive =>
    case XNegative =>
    case YPositive =>
    case YNegative =>
  }

  /**
   * On the offsets, a left turn maps (x, y) to (y, -x) as `Vec2D::rotate_left`
   * does, and a right turn maps (x, y) to (-y, x) as `Vec2D::rotate_right` does.
   */
  lemma TurnIsRotation(d: Direction)
    ensures XOffset(Turned(Left, d)) == YOffset(d) && YOffset(Turned(Left, d)) == -XOffset(d)
    ensures XOffset(Turned(Right, d)) == -YOffset(d) && YOffset(Turned(Right, d)) == XOffset(d)
  {
    match d
    case XPositive =>
    case XNegative =>
    case YPositive =>
    case YNegative =>
  }

  /** Left and right undo each other; two turns to the same side reverse; four return. */
  lemma TurnAlgebra(d: Direction)
    ensures Turned(Right, Turned(Left, d)) == d && Turned(Left, Turned(Right, d)) == d
    ensures Turned(Left, Turned(Left, d)) == Opposite(d) && Turned(Right, Turned(Right, d)) == Opposite(d)
    ensures Turned(Left, Turned(Left, Turned(Left, Turned(Left, d)))) == d
    ensures Turned(Right, Turned(Right, Turned(Right, Turned(Right, d)))) == d
  {
    TurnIsRotation(d);
    TurnIsRotation(Turned(Left, d));
    TurnIsRotation(Turned(Right, d));
    OffsetsInjective(Turned(Right, Turned(Left, d)), d);
    OffsetsInjective(Turned(Left, Turned(Right, d)), d);
    OppositeReverses(d);
    OffsetsInjective(Turned(Left, Turned(Left, d)), Opposite(d));
    OffsetsInjective(Turned(Right, Turned(Right, d)), Opposite(d));
    OppositeReverses(Opposite(d));
  }

  /** Every turn swaps the horizontal and the vertical axis. */
  lemma TurnSwapsAxis(t: TurnDirection, d: Direction)
    ensures (XOffset(Turned(t, d)) == 0) == (XOffset(d) != 0)
    ensures Turned(t, d) != d && Turned(t, d) != Opposite(d)
  {
    TurnIsRotation(d);
    OffsetsAreUnitAxis(d);
    OffsetsAreUnitAxis(Turned(t, d));
    OppositeReverses(d);
  }

  /** The point `distance` steps along `d`, before wrapping. */
  function Unwrapped(p: Point2D, d: Direction, distance: I32): (int, int) {
    (p.x + XOffset(d) * distance, p.y + YOffset(d) * distance)
  }

  /** No i32 arithmetic in `add_direction` overflows. */
  predicate CanAddDirection(p: Point2D, d: Direction, distance: I32) {
    var (newX, newY) := Unwrapped(p, d, distance);
    && IsI32(XOffset(d) * distance) && IsI32(YOffset(d) * distance)
    && IsI32(newX) && IsI32(newY)
    && IsI32(newX + BOARD_WIDTH) && IsI32(newY + BOARD_HEIGHT)
  }

  predicate OnBoard(p: Point2D) {
    0 <= p.x < BOARD_WIDTH && 0 <= p.y < BOARD_HEIGHT
  }

  /**
   * Moves `distance` steps along `d` and wraps the result with Rust's
   * truncating remainder, so the wrap is exact only for coordinates of at
   * least minus one board size. The flag is true exactly when the unwrapped
   * x lies on the board and the unwrapped y is below the board height and at
   * most zero.
   */
  function AddDirection(p: Point2D, d: Direction, distance: I32): (r: (Point2D, bool))
    requires CanAddDirection(p, d, distance)
    ensures var (newX, newY) := Unwrapped(p, d, distance);
      && (r.0.x - newX) % BOARD_WIDTH == 0 && (r.0.y - newY) % BOARD_HEIGHT == 0
      && -BOARD_WIDTH < r.0.x < BOARD_WIDTH && -BOARD_HEIGHT < r.0.y < BOARD_HEIGHT
      && (newX >= -BOARD_WIDTH ==> 0 <= r.0.x < BOARD_WIDTH)
      && (newY >= -BOARD_HEIGHT ==> 0 <= r.0.y < BOARD_HEIGHT)
      && (0 <= newX < BOARD_WIDTH && 0 <= newY < BOARD_HEIGHT ==> r.0 == Point2D(newX, newY))
      && (r.1 <==> 0 <= newX < BOARD_WIDTH && newY < BOARD_HEIGHT && newY <= 0)
  {
    var (newX, newY) := Unwrapped(p, d, distance);
    RemAddMultiple(newX, BOARD_WIDTH);
    RemAddMultiple(newY, BOARD_HEIGHT);
    (Point2D(Rem(newX + BOARD_WIDTH, BOARD_WIDTH), Rem(newY + BOARD_HEIGHT, BOARD_HEIGHT)),
     newX < BOARD_WIDTH && newX >= 0 && newY < BOARD_HEIGHT && newY <= 0)
  }

  /** Adding one board size does not change the residue, and a coordinate on the board is its own residue. */
  lemma RemAddMultiple(v: int, n: int)
    requires n > 0
    ensures (Rem(v + n, n) - v) % n == 0
    ensures 0 <= v < n ==> Rem(v + n, n) == v
  {
    var r := Rem(v + n, n);
    assert (v + n - r) % n == 0;
    assert r - v == (-1) * n + (r - v + n);
    DivModUnique(v + n - r, n, (v + n - r) / n, 0);
    DivModUnique(r - v, n, (v + n - r) / n * (-1) + 1, 0) by {
      var k := (v + n - r) / n;
      assert v + n - r == k * n;
      assert r - v == (1 - k) * n;
    }
    if 0 <= v < n {
      DivModUnique(v + n, n, 1, v);
    }
  }

  /** From a point within one board size of the origin, a step shorter than the i32 range by two boards cannot overflow. */
  lemma StepFits(p: Point2D, d: Direction, distance: I32)
    requires -BOARD_WIDTH < p.x < BOARD_WIDTH && -BOARD_HEIGHT < p.y < BOARD_HEIGHT
    requires 1 <= distance <= MAX_I32 - 2 * BOARD_WIDTH
    ensures CanAddDirection(p, d, distance)
  {
    match d
    case XPositive =>
    case XNegative =>
    case YPositive =>
    case YNegative =>
  }

  /** The total number of cells the segments cover. */
  function TotalLength(segments: seq<SnakeSegment>): int {
    if segments == [] then 0 else TotalLength(segments[..|segments| - 1]) + segments[|segments| - 1].length
  }

  predicate AllPositive(segments: seq<SnakeSegment>) {
    forall i :: 0 <= i < |segments| ==> segments[i].length >= 1
  }

  /** The sum over a prefix and a suffix. */
  lemma {:induction false} TotalLengthAppend(s: seq<SnakeSegment>, t: seq<SnakeSegment>)
    ensures TotalLength(s + t) == TotalLength(s) + TotalLength(t)
    decreases |t|
  {
    if t == [] {
      assert s + t == s;
    } else {
      var u := t[..|t| - 1];
      assert (s + t)[..|s + t| - 1] == s + u;
      TotalLengthAppend(s, u);
    }
  }

  /** With every length at least one, the total bounds each length and is at least the count. */
  lemma {:induction false} TotalLengthBounds(s: seq<SnakeSegment>)
    requires AllPositive(s)
    ensures TotalLength(s) >= |s|
    ensures forall i :: 0 <= i < |s| ==> s[i].length <= TotalLength(s)
    decreases |s|
  {
    if s != [] {
      var u := s[..|s| - 1];
      TotalLengthBounds(u);
      forall i | 0 <= i < |s| ensures s[i].length <= TotalLength(s) {
        if i < |s| - 1 {
          assert s[i] == u[i];
        }
      }
    }
  }

  /** The back (tail-end) segment loses one cell; a segment that reaches zero is dropped. */
  function TrimBack(segments: seq<SnakeSegment>): (r: seq<SnakeSegment>)
    requires AllPositive(segments)
    ensures AllPositive(r)
    ensures segments != [] ==> TotalLength(r) == TotalLength(segments) - 1
    ensures segments == [] ==> r == []
    ensures |r| == |segments| || |r| == |segments| - 1
  {
    if segments == [] then []
    else
      var n := |segments| - 1;
      var last := segments[n];
      if last.length - 1 == 0 then
        segments[..n]
      else
        TotalLengthAppend(segments[..n], [last.(length := last.length - 1)]);
        assert segments[..n] + [last.(length := last.length - 1)] == segments[n := last.(length := last.length - 1)];
        segments[n := last.(length := last.length - 1)]
  }

  /**
   * The front (head-end) grows by one cell: the front segment is lengthened
   * when it already runs away from the new heading and the flag is clear,
   * otherwise a new one-cell segment is pushed.
   */
  function GrowFront(segments: seq<SnakeSegment>, direction: Direction, crossed: bool): (r: seq<SnakeSegment>)
    requires segments != [] && AllPositive(segments) && TotalLength(segments) < MAX_I32
    ensures r != [] && AllPositive(r)
    ensures TotalLength(r) == TotalLength(segments) + 1
    ensures r[0].direction == Opposite(direction)
    ensures r[1..] == segments[1..] || r[1..] == segments
  {
    TotalLengthBounds(segments);
    var first := segments[0];
    if Opposite(direction) == first.direction && !crossed then
      var grown := first.(length := first.length + 1);
      TotalLengthAppend([first], segments[1..]);
      TotalLengthAppend([grown], segments[1..]);
      assert [first] + segments[1..] == segments;
      assert [grown] + segments[1..] == segments[0 := grown];
      segments[0 := grown]
    else
      TotalLengthAppend([SnakeSegment(Opposite(direction), 1)], segments);
      [SnakeSegment(Opposite(direction), 1)] + segments
  }

  /** One step of the body keeps its length, except that a body of one cell disappears. */
  lemma MoveKeepsLength(segments: seq<SnakeSegment>, direction: Direction, crossed: bool)
    requires AllPositive(segments) && TotalLength(segments) <= MAX_I32
    requires TotalLength(segments) >= 2
    ensures TrimBack(segments) != []
    ensures TotalLength(GrowFront(TrimBack(segments), direction, crossed)) == TotalLength(segments)
  {
    TotalLengthBounds(TrimBack(segments));
  }

  class Snake {
    /** The head end of the body. */
    var start: Point2D
    var direction: Direction
    /** Index 0 is the front of the deque, next to `start`. */
    var segments: seq<SnakeSegment>

    ghost predicate Valid()
      reads this
    {
      OnBoard(start) && AllPositive(segments) && TotalLength(segments) <= MAX_I32
    }

    constructor ()
      ensures Valid()
      ensures start == Point2D(5, 5) && direction == XNegative
      ensures segments == [SnakeSegment(XPositive, 20)]
    {
      start := Point2D(5, 5);
      direction := XNegative;
      segments := [SnakeSegment(XPositive, 20)];
      new;
      assert segments[..0] == [];
    }

    /**
     * The tail end loses a cell; then, if any segment is left, the head moves
     * one step along the heading and the front gains a cell.
     */
    method MoveForward()
      requires Valid()
      modifies this
      ensures Valid()
      ensures direction == old(direction)
      ensures TrimBack(old(segments)) == [] ==> start == old(start) && segments == []
      ensures TrimBack(old(segments)) != [] ==>
                var (newStart, crossed) := AddDirection(old(start), direction, 1);
                && start == newStart
                && segments == GrowFront(TrimBack(old(segments)), direction, crossed)
      ensures TotalLength(old(segments)) >= 2 ==> TotalLength(segments) == TotalLength(old(segments))
      ensures TotalLength(old(segments)) < 2 ==> segments == []
    {
      if segments != [] {
        var n := |segments| - 1;
        var last := segments[n];
        last := last.(length := last.length - 1);
        segments := segments[n := last];
        if last.length == 0 {
          segments := segments[..n];
        }
      }
      assert segments == TrimBack(old(segments));
      if segments != [] {
        var first := segments[0];
        var (newStart, crossed) := AddDirection(start, direction, 1);
        start := newStart;
        TotalLengthBounds(segments);
        if Opposite(direction) == first.direction && !crossed {
          segments := segments[0 := first.(length := first.length + 1)];
        } else {
          segments := [SnakeSegment(Opposite(direction), 1)] + segments;
        }
        MoveKeepsLength(old(segments), direction, crossed);
      } else {
        TotalLengthBounds(old(segments));
      }
    }

    method Turn(turnDirection: TurnDirection)
      modifies this`direction
      ensures direction == Turned(turnDirection, old(direction))
      ensures start == old(start) && segments == old(segments)
    {
      direction := Turned(turnDirection, direction);
    }

    /**
     * The corners of the body, head first: the start, then the end of each
     * segment in turn.
     */
    method Segments() returns (points: seq<Point2D>)
      requires Valid()
      requires forall i :: 0 <= i < |segments| ==> segments[i].length <= MAX_I32 - 2 * BOARD_WIDTH
      ensures |points| == |segments| + 1
      ensures points[0] == start
      ensures forall i :: 0 <= i < |segments| ==>
                CanAddDirection(points[i], segments[i].direction, segments[i].length)
                && points[i + 1] == AddDirection(points[i], segments[i].direction, segments[i].length).0
      ensures forall i :: 0 < i < |points| ==>
                -BOARD_WIDTH < points[i].x < BOARD_WIDTH && -BOARD_HEIGHT < points[i].y < BOARD_HEIGHT
    {
      var current := start;
      points := [current];
      for i := 0 to |segments|
        invariant |points| == i + 1 && points[i] == current && points[0] == start
        invariant -BOARD_WIDTH < current.x < BOARD_WIDTH && -BOARD_HEIGHT < current.y < BOARD_HEIGHT
        invariant forall k :: 0 < k < |points| ==>
                    -BOARD_WIDTH < points[k].x < BOARD_WIDTH && -BOARD_HEIGHT < points[k].y < BOARD_HEIGHT
        invariant forall k :: 0 <= k < i ==>
                    CanAddDirection(points[k], segments[k].direction, segments[k].length)
                    && points[k + 1] == AddDirection(points[k], segments[k].direction, segments[k].length).0
      {
        var segment := segments[i];
        StepFits(current, segment.direction, segment.length);
        current := AddDirection(current, segment.direction, segment.length).0;
        points := points + [current];
      }
    }
  }
}
