/**
 * The game engine (`World` in src/world.rs): a heading, the snake's body from
 * tail (first) to head (last) and an alive flag, over a `Screen` whose cell
 * colours are the only record of what occupies the board. `Tick` reads the
 * colour of the cell ahead before it writes anything; that colour alone
 * decides between growing (Food), dying (Snake) and moving (anything else).
 */
module Worlds {

  import opened Int32
  import opened Wrappers
  import opened Coords
  import opened Colors
  import opened Screens

  const START_LEN: int := 7

  /** One step onto a torus of size n: leaving one edge re-enters at the other. */
  function Wrap(v: int, n: int): int {
    if v < 0 then v + n else if v >= n then v - n else v
  }

  /** The starting body, tail first: (0, height/2) to (6, height/2). */
  function InitialSnake(height: int): seq<Coord>
    requires 0 <= height <= MAX_I32
  {
    seq(START_LEN, x requires 0 <= x < START_LEN => Coord(x, height / 2))
  }

  /** The first food: just past the head's column, two rows above the body. */
  function InitialFood(height: int): Coord
    requires 4 <= height <= MAX_I32
  {
    Coord(START_LEN, height / 2 - 2)
  }

  function InitialColor(c: Coord, height: int): Color
    requires 4 <= height <= MAX_I32
  {
    if c in InitialSnake(height) then Snake
    else if c == InitialFood(height) then Food
    else Background
  }

  /** The cells of a fresh board, row by row. */
  function InitialCells(width: int, height: int): (cells: seq<Rgb>)
    requires 0 <= width <= MAX_I32 && 4 <= height <= MAX_I32
    ensures |cells| == width * height
  {
    var coords := IterCoords(width, height);
    seq(|coords|, j requires 0 <= j < |coords| => ToRgb(InitialColor(coords[j], height)))
  }

  /**
   * The heading chosen by a click: a horizontal heading turns up or down
   * toward the clicked row, a vertical one left or right toward the clicked
   * column, so the axis always flips and the snake never reverses.
   */
  function Steer(direction: Coord, head: Coord, x: I32, y: I32): (d: Coord)
    requires IsUnitAxis(direction)
    ensures IsUnitAxis(d)
    ensures (d.x == 0) != (direction.x == 0)
    ensures d.x != 0 ==> (d.x == -1 <==> x < head.x)
    ensures d.y != 0 ==> (d.y == -1 <==> y < head.y)
  {
    match direction.x
    case 0 => Coord(if x < head.x then -1 else 1, 0)
    case _ => Coord(0, if y < head.y then -1 else 1)
  }

  /** On a board of n cells, a coordinate one step past the edge comes back on the other side. */
  lemma RemWraps(v: int, n: int)
    requires n > 0 && -1 <= v <= n
    ensures Rem(v + n, n) == Wrap(v, n)
  {
    if v < 0 {
      DivModUnique(v + n, n, 0, v + n);
    } else if v < n {
      DivModUnique(v + n, n, 1, v);
    } else {
      DivModUnique(v + n, n, 2, 0);
    }
  }

  /**
   * The invariant of a game in progress: a non-empty body of distinct cells
   * on the board, a cell is Snake-coloured exactly when it is in the body,
   * exactly one cell (`food`) is Food, and no cell is Fail or unreadable.
   */
  ghost predicate PlayingOn(snake: seq<Coord>, food: Coord, cells: seq<Rgb>, width: int, height: int) {
    && |cells| == width * height
    && snake != []
    && (forall i :: 0 <= i < |snake| ==> InBounds(snake[i], width, height))
    && (forall i, j :: 0 <= i < j < |snake| ==> snake[i] != snake[j])
    && InBounds(food, width, height)
    && (forall c :: InBounds(c, width, height) ==>
          CellColor(cells, c, width, height) in {Some(Background), Some(Snake), Some(Food)})
    && (forall c :: InBounds(c, width, height) ==>
          (CellColor(cells, c, width, height) == Some(Snake) <==> c in snake))
    && (forall c :: InBounds(c, width, height) ==>
          (CellColor(cells, c, width, height) == Some(Food) <==> c == food))
  }

  /**
   * A move onto a Background cell: the head is painted Snake, the tail is
   * dropped and painted Background; the game stays well formed.
   */
  lemma MoveKeepsPlaying(snake: seq<Coord>, food: Coord, cells: seq<Rgb>, width: int, height: int, next: Coord)
    requires PlayingOn(snake, food, cells, width, height)
    requires InBounds(next, width, height) && CellColor(cells, next, width, height) == Some(Background)
    ensures PlayingOn(snake[1..] + [next], food,
                      cells[CellOf(next, width, height) := ToRgb(Snake)]
                           [CellOf(snake[0], width, height) := ToRgb(Background)],
                      width, height)
  {
    var tail := snake[0];
    var body := snake[1..] + [next];
    var painted := cells[CellOf(next, width, height) := ToRgb(Snake)];
    var after := painted[CellOf(tail, width, height) := ToRgb(Background)];
    assert next !in snake;
    assert tail !in snake[1..] by {
      forall i | 1 <= i < |snake| ensures snake[i] != tail { }
    }
    DecodeEncode(Snake);
    DecodeEncode(Background);
    forall c | InBounds(c, width, height)
      ensures CellColor(after, c, width, height) ==
                if c == tail then Some(Background)
                else if c == next then Some(Snake)
                else CellColor(cells, c, width, height)
    {
      CellColorUpdate(cells, c, next, ToRgb(Snake), width, height);
      CellColorUpdate(painted, c, tail, ToRgb(Background), width, height);
    }
    forall i, j | 0 <= i < j < |body| ensures body[i] != body[j] {
      if j < |body| - 1 {
        assert body[i] == snake[i + 1] && body[j] == snake[j + 1];
      } else {
        assert body[i] in snake;
      }
    }
    forall c | InBounds(c, width, height)
      ensures CellColor(after, c, width, height) == Some(Snake) <==> c in body
    {
      if c != tail && c != next {
        assert c in snake <==> c in snake[1..] by {
          if c in snake {
            var i :| 0 <= i < |snake| && snake[i] == c;
            assert snake[1..][i - 1] == c;
          }
        }
      }
    }
  }

  /** Painting a non-Background cell Snake leaves a board with a Background cell some free cell. */
  lemma EatingLeavesFreeCell(cells: seq<Rgb>, width: int, height: int, head: Coord)
    requires 0 <= width <= MAX_I32 && 0 <= height <= MAX_I32 && |cells| == width * height
    requires InBounds(head, width, height) && CellColor(cells, head, width, height) != Some(Background)
    requires exists c :: InBounds(c, width, height) && CellColor(cells, c, width, height) == Some(Background)
    ensures FreeCells(cells[CellOf(head, width, height) := ToRgb(Snake)], width, height) != []
  {
    var free: Coord :| InBounds(free, width, height) && CellColor(cells, free, width, height) == Some(Background);
    CellColorUpdate(cells, free, head, ToRgb(Snake), width, height);
    FreeCellsExactly(cells[CellOf(head, width, height) := ToRgb(Snake)], width, height, free);
  }

  /**
   * A move onto the Food cell: the head is painted Snake, the tail stays,
   * and a free cell of the repainted board becomes the new food.
   */
  lemma EatKeepsPlaying(snake: seq<Coord>, food: Coord, cells: seq<Rgb>, width: int, height: int,
                        newFood: Coord)
    requires 0 <= width <= MAX_I32 && 0 <= height <= MAX_I32
    requires PlayingOn(snake, food, cells, width, height)
    requires newFood in FreeCells(cells[CellOf(food, width, height) := ToRgb(Snake)], width, height)
    ensures PlayingOn(snake + [food], newFood,
                      cells[CellOf(food, width, height) := ToRgb(Snake)]
                           [CellOf(newFood, width, height) := ToRgb(Food)],
                      width, height)
  {
    var body := snake + [food];
    var painted := cells[CellOf(food, width, height) := ToRgb(Snake)];
    FreeCellsExactly(painted, width, height, newFood);
    var after := painted[CellOf(newFood, width, height) := ToRgb(Food)];
    DecodeEncode(Snake);
    DecodeEncode(Food);
    assert food !in snake;
    CellColorUpdate(cells, newFood, food, ToRgb(Snake), width, height);
    assert newFood !in body;
    forall c | InBounds(c, width, height)
      ensures CellColor(after, c, width, height) ==
                if c == newFood then Some(Food)
                else if c == food then Some(Snake)
                else CellColor(cells, c, width, height)
    {
      CellColorUpdate(cells, c, food, ToRgb(Snake), width, height);
      CellColorUpdate(painted, c, newFood, ToRgb(Food), width, height);
    }
    forall i, j | 0 <= i < j < |body| ensures body[i] != body[j] {
      if j == |body| - 1 {
        assert body[i] in snake;
      }
    }
  }

  class World {

    const screen: Screen
    var direction: Coord
    /** The body: the tail is first, the head is last. */
    var snake: seq<Coord>
    var alive: bool
    /** The one Food cell of a game in progress. */
    ghost var food: Coord

    ghost predicate Valid()
      reads this, screen, screen.pixelBuffer
    {
      && screen.Valid()
      && 8 <= screen.width
      && 4 <= screen.height
      && IsUnitAxis(direction)
      && (alive ==> Playing())
    }

    ghost predicate Playing()
      reads this, screen
    {
      PlayingOn(snake, food, screen.cells, screen.width, screen.height)
    }

    /** The state built by `World::new` and by a revive. */
    ghost predicate InitialState()
      reads this, screen, screen.pixelBuffer
    {
      && Valid()
      && direction == Coord(1, 0)
      && alive
      && snake == InitialSnake(screen.height)
      && food == InitialFood(screen.height)
      && screen.cells == InitialCells(screen.width, screen.height)
    }

    constructor (width: int, height: int)
      requires 8 <= width && 4 <= height
      requires width * height * BYTES_PER_PIXEL <= MAX_U32
      ensures InitialState()
      ensures screen.width == width && screen.height == height
      ensures fresh(screen) && fresh(screen.pixelBuffer)
    {
      screen := new Screen(width, height);
      direction := Coord(1, 0);
      snake := [];
      alive := true;
      new;
      screen.Clear();
      CreateInitialSnake();
      CreateInitialFood();
      InitialBoardIsPlaying(this);
    }

    /** The cell the head moves into: one step along the heading, wrapped around the board. */
    function GetNewHead(): (next: Coord)
      reads this
      requires screen.Shape() && snake != [] && IsUnitAxis(direction)
      requires InBounds(snake[|snake| - 1], screen.width, screen.height)
      ensures InBounds(next, screen.width, screen.height)
      ensures next.x == Wrap(snake[|snake| - 1].x + direction.x, screen.width)
      ensures next.y == Wrap(snake[|snake| - 1].y + direction.y, screen.height)
    {
      var moved := Add(snake[|snake| - 1], direction);
      RemWraps(moved.x, screen.width);
      RemWraps(moved.y, screen.height);
      Coord(Rem(moved.x + screen.width, screen.width), Rem(moved.y + screen.height, screen.height))
    }

    /** The colour of the cell ahead, read before the tick writes anything. */
    ghost function Ahead(): Option<Color>
      reads this, screen, screen.pixelBuffer
      requires Valid() && alive
    {
      screen.ColorAt(GetNewHead())
    }

    /**
     * One step of the game. `randomSkip`, drawn from [0, pixelCount) in the
     * source, picks the new food when the snake eats.
     */
    method Tick(randomSkip: nat)
      requires Valid() && randomSkip < screen.pixelCount
      requires alive && Ahead() == Some(Food) ==>
                 exists c :: InBounds(c, screen.width, screen.height) && screen.ColorAt(c) == Some(Background)
      modifies this, screen, screen.pixelBuffer
      ensures Valid()
      ensures direction == old(direction)
      ensures !old(alive) ==>
                !alive && snake == old(snake) && screen.cells == old(screen.cells) && unchanged(screen.pixelBuffer)
      ensures old(alive && Ahead() == Some(Snake)) ==>
                && !alive
                && snake == old(snake + [GetNewHead()])
                && forall d :: InBounds(d, screen.width, screen.height) ==>
                     screen.ColorAt(d) == if OnEdge(d, screen.width, screen.height) then Some(Fail)
                                          else old(screen.ColorAt(d))
      ensures old(alive && Ahead() == Some(Food)) ==>
                && alive
                && snake == old(snake + [GetNewHead()])
                && CycleNth(FreeCells(old(screen.cells)[CellOf(old(GetNewHead()), screen.width, screen.height)
                                        := ToRgb(Snake)], screen.width, screen.height),
                            randomSkip) == Some(food)
                && screen.cells == old(screen.cells)[CellOf(old(GetNewHead()), screen.width, screen.height)
                                                       := ToRgb(Snake)]
                                                    [CellOf(food, screen.width, screen.height) := ToRgb(Food)]
      ensures old(alive && Ahead() != Some(Snake) && Ahead() != Some(Food)) ==>
                && alive
                && food == old(food)
                && snake == old(snake[1..] + [GetNewHead()])
                && screen.cells == old(screen.cells)[CellOf(old(GetNewHead()), screen.width, screen.height)
                                                       := ToRgb(Snake)]
                                                    [CellOf(old(snake[0]), screen.width, screen.height)
                                                       := ToRgb(Background)]
    {
      if alive {
        var newHead := GetNewHead();
        var newHeadPixel := screen.GetColorAt(newHead);
        if newHeadPixel == Some(Food) {
          Grow(newHead, randomSkip);
        } else if newHeadPixel == Some(Snake) {
          Crash(newHead);
        } else {
          Advance(newHead);
        }
      }
    }

    /** The Food arm of `Tick`: the head moves onto the food, the tail stays, new food appears. */
    method Grow(newHead: Coord, randomSkip: nat)
      requires Valid() && alive && randomSkip < screen.pixelCount
      requires InBounds(newHead, screen.width, screen.height) && screen.ColorAt(newHead) == Some(Food)
      requires exists c :: InBounds(c, screen.width, screen.height) && screen.ColorAt(c) == Some(Background)
      modifies this`snake, this`food, screen, screen.pixelBuffer
      ensures Valid() && alive
      ensures snake == old(snake) + [newHead]
      ensures CycleNth(FreeCells(old(screen.cells)[CellOf(newHead, screen.width, screen.height) := ToRgb(Snake)],
                                 screen.width, screen.height),
                       randomSkip) == Some(food)
      ensures screen.cells == old(screen.cells)[CellOf(newHead, screen.width, screen.height) := ToRgb(Snake)]
                                               [CellOf(food, screen.width, screen.height) := ToRgb(Food)]
    {
      ghost var body := snake;
      ghost var cells := screen.cells;
      ghost var painted := cells[CellOf(newHead, screen.width, screen.height) := ToRgb(Snake)];
      assert PlayingOn(body, newHead, cells, screen.width, screen.height) by {
        assert newHead == food;
      }
      assert FreeCells(painted, screen.width, screen.height) != [] by {
        EatingLeavesFreeCell(cells, screen.width, screen.height, newHead);
      }
      ExtendHeadTo(newHead);
      CreateFood(randomSkip);
      assert Playing() by {
        EatKeepsPlaying(body, newHead, cells, screen.width, screen.height, food);
      }
      assert direction == old(direction);
    }

    /** The Snake arm of `Tick`: the head moves into the body and the game ends with red edges. */
    method Crash(newHead: Coord)
      requires Valid() && alive
      requires InBounds(newHead, screen.width, screen.height) && screen.ColorAt(newHead) == Some(Snake)
      modifies this`snake, this`alive, screen, screen.pixelBuffer
      ensures Valid() && !alive
      ensures snake == old(snake) + [newHead]
      ensures forall d :: InBounds(d, screen.width, screen.height) ==>
                screen.ColorAt(d) == if OnEdge(d, screen.width, screen.height) then Some(Fail)
                                     else old(screen.ColorAt(d))
    {
      ExtendHeadTo(newHead);
      Die();
    }

    /** Any other arm of `Tick`: the head moves onto a Background cell and the tail is dropped. */
    method Advance(newHead: Coord)
      requires Valid() && alive
      requires InBounds(newHead, screen.width, screen.height) && screen.ColorAt(newHead) != Some(Food) && screen.ColorAt(newHead) != Some(Snake)
      modifies this`snake, screen, screen.pixelBuffer
      ensures Valid() && alive
      ensures snake == old(snake[1..]) + [newHead]
      ensures screen.cells == old(screen.cells)[CellOf(newHead, screen.width, screen.height) := ToRgb(Snake)]
                                               [CellOf(old(snake[0]), screen.width, screen.height) := ToRgb(Background)]
    {
      ghost var body := snake;
      ghost var cells := screen.cells;
      MoveKeepsPlaying(body, food, cells, screen.width, screen.height, newHead);
      ExtendHeadTo(newHead);
      assert (body + [newHead])[1..] == body[1..] + [newHead];
      ShortenTail();
    }

    /** A click turns the snake while the game runs and revives a finished game. */
    method Click(x: I32, y: I32)
      requires Valid()
      modifies this, screen, screen.pixelBuffer
      ensures Valid()
      ensures old(alive) ==>
                && alive
                && snake == old(snake)
                && food == old(food)
                && direction == Steer(old(direction), old(snake[|snake| - 1]), x, y)
                && screen.cells == old(screen.cells)
                && unchanged(screen.pixelBuffer)
      ensures !old(alive) ==> InitialState()
    {
      if alive {
        var head := snake[|snake| - 1];
        direction := Steer(direction, head, x, y);
      } else {
        ResetGame();
      }
    }

    method ResetGame()
      requires screen.Valid() && 8 <= screen.width && 4 <= screen.height
      modifies this, screen, screen.pixelBuffer
      ensures InitialState()
    {
      direction := Coord(1, 0);
      snake := [];
      alive := true;
      screen.Clear();
      CreateInitialSnake();
      CreateInitialFood();
      InitialBoardIsPlaying(this);
    }

    method CreateInitialSnake()
      requires screen.Valid() && 8 <= screen.width && 4 <= screen.height
      modifies this`snake, screen, screen.pixelBuffer
      ensures screen.Valid()
      ensures snake == old(snake) + InitialSnake(screen.height)
      ensures |screen.cells| == |old(screen.cells)|
      ensures forall j :: 0 <= j < |screen.cells| ==>
                screen.cells[j] == if IterCoords(screen.width, screen.height)[j] in InitialSnake(screen.height)
                                   then ToRgb(Snake) else old(screen.cells[j])
      ensures forall d :: InBounds(d, screen.width, screen.height) ==>
                screen.ColorAt(d) == if d in InitialSnake(screen.height) then Some(Snake)
                                     else old(screen.ColorAt(d))
    {
      var startY := screen.height / 2;
      ghost var body := InitialSnake(screen.height);
      ghost var coords := IterCoords(screen.width, screen.height);
      for x := 0 to START_LEN
        invariant screen.Valid()
        invariant snake == old(snake) + body[..x]
        invariant |screen.cells| == |old(screen.cells)|
        invariant forall j :: 0 <= j < |screen.cells| ==>
                    screen.cells[j] == if coords[j] in body[..x] then ToRgb(Snake) else old(screen.cells[j])
        invariant forall d :: InBounds(d, screen.width, screen.height) ==>
                    screen.ColorAt(d) == if d in body[..x] then Some(Snake) else old(screen.ColorAt(d))
      {
        screen.SetColorAt(Coord(x, startY), Snake);
        snake := snake + [Coord(x, startY)];
        assert body[..x + 1] == body[..x] + [Coord(x, startY)];
      }
      assert body[..START_LEN] == body;
    }

    method CreateInitialFood()
      requires screen.Valid() && 8 <= screen.width && 4 <= screen.height
      modifies this`food, screen, screen.pixelBuffer
      ensures screen.Valid()
      ensures food == InitialFood(screen.height)
      ensures screen.cells == old(screen.cells)[CellOf(food, screen.width, screen.height) := ToRgb(Food)]
      ensures forall d :: InBounds(d, screen.width, screen.height) ==>
                screen.ColorAt(d) == if d == food then Some(Food) else old(screen.ColorAt(d))
    {
      var initialFoodY := screen.height / 2 - 2;
      screen.SetColorAt(Coord(START_LEN, initialFoodY), Food);
      food := Coord(START_LEN, initialFoodY);
    }

    method ExtendHeadTo(newHead: Coord)
      requires screen.Valid() && InBounds(newHead, screen.width, screen.height)
      modifies this`snake, screen, screen.pixelBuffer
      ensures screen.Valid()
      ensures snake == old(snake) + [newHead]
      ensures screen.cells == old(screen.cells)[CellOf(newHead, screen.width, screen.height) := ToRgb(Snake)]
      ensures forall d :: InBounds(d, screen.width, screen.height) ==>
                screen.ColorAt(d) == if d == newHead then Some(Snake) else old(screen.ColorAt(d))
    {
      screen.SetColorAt(newHead, Snake);
      snake := snake + [newHead];
    }

    method ShortenTail()
      requires screen.Valid() && snake != [] && InBounds(snake[0], screen.width, screen.height)
      modifies this`snake, screen, screen.pixelBuffer
      ensures screen.Valid()
      ensures snake == old(snake)[1..]
      ensures screen.cells == old(screen.cells)[CellOf(old(snake[0]), screen.width, screen.height) := ToRgb(Background)]
      ensures forall d :: InBounds(d, screen.width, screen.height) ==>
                screen.ColorAt(d) == if d == old(snake[0]) then Some(Background) else old(screen.ColorAt(d))
    {
      var tail := snake[0];
      snake := snake[1..];
      screen.SetColorAt(tail, Background);
    }

    /**
     * Paints the new food: the Background cells are collected row by row and
     * the one `randomSkip` steps into their endless repetition is chosen. The
     * source panics when there is no Background cell.
     */
    method CreateFood(randomSkip: nat)
      requires screen.Valid() && randomSkip < screen.pixelCount
      requires FreeCells(screen.cells, screen.width, screen.height) != []
      modifies this`food, screen, screen.pixelBuffer
      ensures screen.Valid()
      ensures CycleNth(FreeCells(old(screen.cells), screen.width, screen.height), randomSkip) == Some(food)
      ensures food in FreeCells(old(screen.cells), screen.width, screen.height)
      ensures screen.cells == old(screen.cells)[CellOf(food, screen.width, screen.height) := ToRgb(Food)]
      ensures forall d :: InBounds(d, screen.width, screen.height) ==>
                screen.ColorAt(d) == if d == food then Some(Food) else old(screen.ColorAt(d))
    {
      var pixels := screen.IterPixels();
      var free: seq<Coord> := [];
      for k := 0 to |pixels|
        invariant free == BackgroundCoords(pixels[..k])
      {
        assert pixels[..k + 1][..k] == pixels[..k];
        if pixels[k].0 == Some(Background) {
          free := free + [pixels[k].1];
        }
      }
      assert free == FreeCells(screen.cells, screen.width, screen.height) by {
        assert pixels[..|pixels|] == pixels;
      }
      var coord := CycleNth(free, randomSkip).value;
      assert InBounds(coord, screen.width, screen.height);
      screen.SetColorAt(coord, Food);
      food := coord;
    }

    method Die()
      requires screen.Valid()
      modifies this`alive, screen, screen.pixelBuffer
      ensures screen.Valid() && !alive
      ensures forall j :: 0 <= j < screen.pixelCount ==>
                screen.cells[j] == if OnEdge(IterCoords(screen.width, screen.height)[j], screen.width, screen.height)
                                   then ToRgb(Fail) else old(screen.cells[j])
      ensures forall d :: InBounds(d, screen.width, screen.height) ==>
                screen.ColorAt(d) == if OnEdge(d, screen.width, screen.height) then Some(Fail)
                                     else old(screen.ColorAt(d))
    {
      alive := false;
      screen.SetColorAtEdges(Fail);
    }
  }

  /** The board painted by a fresh start is the initial board, and the game is in progress. */
  lemma InitialBoardIsPlaying(world: World)
    requires world.screen.Valid() && 8 <= world.screen.width && 4 <= world.screen.height
    requires world.snake == InitialSnake(world.screen.height)
    requires world.food == InitialFood(world.screen.height)
    requires forall d :: InBounds(d, world.screen.width, world.screen.height) ==>
               world.screen.ColorAt(d) == Some(InitialColor(d, world.screen.height))
    ensures world.screen.cells == InitialCells(world.screen.width, world.screen.height)
    ensures world.Playing()
  {
    var screen := world.screen;
    var coords := IterCoords(screen.width, screen.height);
    forall j | 0 <= j < |coords|
      ensures screen.cells[j] == ToRgb(InitialColor(coords[j], screen.height))
    {
      assert screen.ColorAt(coords[j]) == Some(InitialColor(coords[j], screen.height));
    }
  }

  /** A revive restores exactly what construction builds: same fields, same bytes. */
  lemma InitialStatesAgree(a: World, b: World)
    requires a.InitialState() && b.InitialState()
    requires a.screen.width == b.screen.width && a.screen.height == b.screen.height
    ensures a.direction == b.direction && a.snake == b.snake && a.alive == b.alive
    ensures a.screen.pixelBuffer[..] == b.screen.pixelBuffer[..]
  {
    SameCellsSameBytes(a.screen, b.screen);
  }

  /** On a fresh 30 × 30 board the body runs from (0, 15) to (6, 15) and the food is at (7, 13). */
  lemma InitialExample()
    ensures InitialSnake(30) == [Coord(0, 15), Coord(1, 15), Coord(2, 15), Coord(3, 15),
                                 Coord(4, 15), Coord(5, 15), Coord(6, 15)]
    ensures InitialFood(30) == Coord(7, 13)
    ensures InitialColor(Coord(7, 15), 30) == Background
  {
  }
}
