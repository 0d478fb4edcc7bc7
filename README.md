# Snake engine in Dafny

This project models the game engine of a WebAssembly snake game written in Rust.

The engine is `World` in src/world.rs. It holds:
- a heading;
- the snake's body, as a deque of board cells with the tail first and the head last;
- an alive flag;
- a `Screen`.

The screen is a flat RGBA byte buffer with four bytes per cell, stored row by row. It is the only record of what occupies each cell. Each `tick` reads the colour of the cell ahead, one step along the heading with wrap-around, before it writes anything:
- Food: the snake grows, and a new food cell is drawn from the Background cells.
- Snake: the game ends and the board's edge turns red.
- Anything else: the head moves and the tail is dropped.

A `click` turns the snake toward the clicked point while the game runs, and restarts a finished game.

The model also covers:
- `Coord` (src/world/coord.rs) and `Vec2D` (src/world/vec2d.rs), small i32 vector types;
- the run-length-encoded snake of src/snake.rs, a start point plus a deque of (heading, length) segments on a 300 × 300 wrapping board.

Modules, one per file:
- `Int32` (int32.dfy): i32/u32 bounds, and Rust's truncating `%` as `Rem`.
- `Wrappers` (wrappers.dfy): `Option`.
- `Coords` (coord.dfy).
- `Vectors` (vec2d.dfy).
- `Colors` (color.dfy): the colour ↔ RGB codec.
- `Screens` (screen.dfy): the `Screen` class over an `array` of bytes, with a ghost per-cell view `cells`.
- `Worlds` (world.dfy): the `World` class.
- `Snakes` (snake.dfy).

The main invariant of a running game is `PlayingOn`:
- the body is non-empty;
- its cells are distinct and on the board;
- a cell is Snake-coloured exactly when it is in the body;
- exactly one cell, the ghost field `food`, is Food;
- every cell decodes to Background, Snake or Food.

`World.Valid` keeps this invariant for as long as `alive` holds. `Tick` and `Click` preserve it. The pure lemmas `MoveKeepsPlaying` and `EatKeepsPlaying` carry the proof for the two moves that keep the game going.

Three modelling choices:
- `snake.rs`'s `add_direction` is modelled exactly as written. Its flag is true when the unwrapped x lies on the board and the unwrapped y is below 300 and at most 0; `move_forward` uses the negation of that flag.
- In `move_forward`, index 0 of the segment sequence is the deque's front, the segment next to `start`.
- `Snake::turn` becomes the class method `Turn`. The pure `TurnDirection::turn` is the function `Turned`, so the two names do not clash.

## Model

| member | source | states |
|---|---|---|
| `Int32.Rem` | src/world.rs:89-90 | Rust's `%`: the result has the dividend's sign, its magnitude is below the divisor, and it differs from the dividend by a multiple of the divisor |
| `Coords.New` | src/world/coord.rs:10-12 | `Coord::new(x, y)` has exactly the fields `x` and `y` |
| `Coords.FromTuple` | src/world/coord.rs:26-30 | converting `(x, y)` gives the coordinate whose fields are `x` and `y` |
| `Coords.Add` | src/world/coord.rs:18-23 | the sum is `a` translated by `b`: taking away either operand component-wise leaves the other |
| `Coords.FromTupleIsNew` | src/world/coord.rs:26-41 | converting a tuple gives `Coord::new` of its components; `(1, 10)` gives `{x: 1, y: 10}` |
| `Coords.AddComponentWise` | src/world/coord.rs:18-23 | `+` adds the components; `(1,10) + (2,11) = (3,21)` |
| `Coords.AddCommutative` | src/world/coord.rs:18-23 | `+` is commutative, and when one order fits in i32 so does the other |
| `Coords.AddAssociative` | src/world/coord.rs:18-23 | `+` is associative when the intermediate sums fit in i32 |
| `Coords.OriginIsIdentity` | src/world/coord.rs:18-23 | `(0, 0)` is a left and right identity of `+` |
| `Vectors.Add` | src/world/vec2d.rs:8-13 | the sum is `a` translated by `b`: taking away either operand component-wise leaves the other |
| `Vectors.RotateLeft` | src/world/vec2d.rs:15-22 | the result is perpendicular to `v` and as long as `v`, and is a left turn on the screen (cross product `-|v|²`) |
| `Vectors.RotateRight` | src/world/vec2d.rs:24-31 | the result is perpendicular to `v` and as long as `v`, and is a right turn on the screen (cross product `+|v|²`) |
| `Vectors.AddExample` | src/world/vec2d.rs:39-43 | `(1,10) + (2,11) = (3,21)` |
| `Vectors.RotateLeftExample` | src/world/vec2d.rs:45-49 | `rotate_left` maps `(1,0)` to `(0,-1)` |
| `Vectors.RotateRightExample` | src/world/vec2d.rs:51-55 | `rotate_right` maps `(0,-1)` to `(1,0)` |
| `Vectors.RotationsAreInverse` | src/world/vec2d.rs:15-31 | a right rotation undoes a left one and a left rotation undoes a right one |
| `Vectors.FourLeftTurnsIdentity` | src/world/vec2d.rs:15-22 | four left rotations give the vector back |
| `Vectors.RotationsKeepUnitAxis` | src/world/vec2d.rs:15-31 | both rotations map the four unit axis vectors to unit axis vectors and move the zero component to the other axis |
| `Vectors.AddCommutative` | src/world/vec2d.rs:8-13 | `add` is commutative |
| `Vectors.ZeroIsIdentity` | src/world/vec2d.rs:8-13 | `(0, 0)` is a left and right identity of `add` |
| `Colors.ToRgb` | src/world.rs:209-218 | every colour is encoded as black or one pure primary: each channel is 0 or 255, at most one is lit, and only Background is black |
| `Colors.FromRgb` | src/world.rs:220-230 | decoding yields a colour whose encoding is the triple; it fails (the source panics) exactly when no colour encodes to the triple |
| `Colors.DecodeEncode` | src/world.rs:209-230 | decoding the encoding of any colour gives that colour back |
| `Colors.EncodeInjective` | src/world.rs:209-218 | distinct colours have distinct triples |
| `Screens.CellOf` | src/world.rs:183-185 | the row-major number `y * width + x` of an on-board cell lies in `[0, width * height)` |
| `Screens.CellOfInjective` | src/world.rs:183-185 | distinct on-board cells get distinct numbers, so distinct cells own disjoint bytes |
| `Screens.CellColorUpdate` | src/world.rs:157-160 | repainting one cell changes the decoded colour of that cell and of no other |
| `Screens.IterCoords` | src/world.rs:187-191 | `iter_coords` yields `width * height` on-board coordinates, the j-th being the cell numbered j (row by row) |
| `Screens.IterCoordsAt` | src/world.rs:187-191 | every on-board cell occurs in `iter_coords`, at its own number |
| `Screens.BackgroundCoords` | src/world.rs:114-115 | filtering on Background and keeping the coordinate yields exactly the coordinates paired with Background |
| `Screens.FreeCells` | src/world.rs:111-116 | the collected Background coordinates: no more than there are cells, each on the board and Background |
| `Screens.FreeCellsRowMajor` | src/world.rs:111-116 | the collected cells come in strictly increasing row-major number, so none occurs twice; with `FreeCellsExactly` this makes them the Background cells in row-major order |
| `Screens.FreeCellsExactly` | src/world.rs:111-116 | the collected free cells are exactly the on-board cells whose colour is Background |
| `Screens.CycleNth` | src/world.rs:117-121 | `cycle().skip(n).next()` yields nothing exactly for an empty sequence, and otherwise one of its elements |
| `Screens.CycleNthIsMod` | src/world.rs:117-121 | `cycle().skip(n).next()` is the `(n mod k)`-th element of a non-empty sequence of length k, and nothing for an empty one |
| `Screens.Screen.constructor` | src/world.rs:140-149 | a buffer of `width * height * 4` bytes, every byte 255 |
| `Screens.Screen.GetBufferIndexFor` | src/world.rs:183-185 | the index is a multiple of 4; the cell's four bytes lie inside the buffer; the index divided by 4 is the cell's position in `iter_coords` |
| `Screens.Screen.GetColorAt` | src/world.rs:173-181 | reading a cell's three colour bytes decodes to that cell's colour in the abstract view |
| `Screens.Screen.SetColorAt` | src/world.rs:157-160 | writes the colour's three bytes at the cell's index and no other byte; only that cell's colour changes; alpha bytes stay 255 |
| `Screens.Screen.Clear` | src/world.rs:151-155 | every cell becomes Background |
| `Screens.Screen.SetColorAtEdges` | src/world.rs:162-171 | cells with `x = 0`, `y = 0`, `x = width - 1` or `y = height - 1` take the colour's triple; every interior cell keeps its triple, decodable or not |
| `Screens.Screen.IterPixels` | src/world.rs:193-196 | each cell's decoded colour paired with its coordinate, row by row |
| `Screens.SameCellsSameBytes` | src/world.rs:140-160 | two buffers with the same cell colours hold the same bytes, alpha included |
| `Worlds.Steer` | src/world.rs:52-56 | a horizontal heading turns vertical toward the clicked row, a vertical one horizontal toward the clicked column; the result is a unit axis vector on the other axis |
| `Worlds.RemWraps` | src/world.rs:89-90 | `(v + n) % n` wraps a coordinate one step off the board back onto it |
| `Worlds.MoveKeepsPlaying` | src/world.rs:94-102 | painting a Background cell as the new head, and dropping and clearing the tail, keeps the game invariant |
| `Worlds.EatKeepsPlaying` | src/world.rs:94-124 | painting the food cell as the new head, keeping the tail and placing food on a free cell of the repainted board keeps the game invariant |
| `Worlds.World.constructor` | src/world.rs:19-31 | the starting state: heading `(1,0)`, alive, body `(0,h/2)…(6,h/2)`, food at `(7,h/2-2)`, every other cell Background, invariant established |
| `Worlds.World.GetNewHead` | src/world.rs:85-92 | the new head is on the board and is the head plus the heading, wrapped modulo width and height |
| `Worlds.World.Tick` | src/world.rs:33-46 | a dead game changes nothing; otherwise the colour ahead decides: Snake ends the game with red edges, Food grows the body and repaints exactly two cells, anything else moves the body and repaints exactly two cells; the invariant is kept |
| `Worlds.World.Grow` | src/world.rs:38-41 | the head is appended; the new food is the `randomSkip`-th cell of the endless repetition of the free cells counted after painting the head; exactly those two cells change |
| `Worlds.World.Crash` | src/world.rs:38-42 | the head is appended; the game ends; exactly the edge cells turn Fail |
| `Worlds.World.Advance` | src/world.rs:38-43 | the head is appended and the tail dropped; exactly the head cell (Snake) and the old tail cell (Background) change |
| `Worlds.World.Click` | src/world.rs:48-60 | while alive, only the heading changes, to `Steer` of the old heading; while dead, the game returns to the starting state |
| `Worlds.World.ResetGame` | src/world.rs:62-69 | the starting state, as built by the constructor |
| `Worlds.World.CreateInitialSnake` | src/world.rs:71-77 | appends `(0,h/2)…(6,h/2)` and paints exactly those cells Snake; every other cell keeps its triple |
| `Worlds.World.CreateInitialFood` | src/world.rs:79-83 | paints exactly `(7, h/2-2)` Food; every other cell keeps its triple |
| `Worlds.World.ExtendHeadTo` | src/world.rs:94-97 | appends the cell to the body and paints exactly that cell Snake |
| `Worlds.World.ShortenTail` | src/world.rs:99-102 | removes the tail from the body and paints exactly that cell Background |
| `Worlds.World.CreateFood` | src/world.rs:104-124 | the chosen cell is the `randomSkip`-th of the endless repetition of the Background cells in row-major order; it was Background; exactly that cell turns Food |
| `Worlds.World.Die` | src/world.rs:126-129 | clears `alive` and turns exactly the edge cells Fail; every interior cell keeps its triple |
| `Worlds.InitialBoardIsPlaying` | src/world.rs:19-31 | the board painted by a fresh start is the initial board and satisfies the game invariant |
| `Worlds.InitialStatesAgree` | src/world.rs:19-69 | construction and revive give the same heading, body, flag and buffer bytes |
| `Worlds.InitialExample` | src/world.rs:238-250 | on a 30 × 30 board the body is `(0,15)…(6,15)`, the food `(7,13)`, and `(7,15)` is Background |
| `Snakes.XOffset` | src/snake.rs:65-72 | the x step is non-zero exactly for the two horizontal headings: +1 for `XPositive`, -1 for `XNegative` |
| `Snakes.YOffset` | src/snake.rs:74-81 | the y step is non-zero exactly for the two vertical headings: +1 for `YPositive`, -1 for `YNegative` |
| `Snakes.Opposite` | src/snake.rs:83-90 | the other heading on the same axis |
| `Snakes.Turned` | src/snake.rs:39-54 | a turn always gives a heading on the other axis |
| `Snakes.OffsetsAreUnitAxis` | src/snake.rs:65-81 | for every heading exactly one offset is non-zero, and each offset is in `{-1, 0, 1}` |
| `Snakes.OffsetsInjective` | src/snake.rs:65-81 | headings with equal offsets are equal |
| `Snakes.OppositeReverses` | src/snake.rs:83-90 | `opposite` is an involution without fixed points and negates both offsets |
| `Snakes.TurnIsRotation` | src/snake.rs:39-54 | a left turn maps the offsets `(x, y)` to `(y, -x)`, as `rotate_left` does, and a right turn maps them to `(-y, x)`, as `rotate_right` does |
| `Snakes.TurnAlgebra` | src/snake.rs:39-54 | left and right turns undo each other; two turns to the same side give `opposite`; four give the heading back |
| `Snakes.TurnSwapsAxis` | src/snake.rs:39-54 | every turn swaps the horizontal and the vertical axis, so it neither keeps nor reverses the heading |
| `Snakes.AddDirection` | src/snake.rs:23-31 | the result is congruent to the unwrapped point modulo 300 and on the board whenever the unwrapped coordinates are at least -300; a point already on the board is unchanged; the flag holds exactly when `0 <= new_x < 300`, `new_y < 300` and `new_y <= 0` |
| `Snakes.RemAddMultiple` | src/snake.rs:28-29 | `(v + 300) % 300` is congruent to `v`, and equal to it on the board |
| `Snakes.StepFits` | src/snake.rs:23-25 | from a point within one board of the origin, no arithmetic of `add_direction` overflows for lengths up to the i32 maximum less two boards |
| `Snakes.TrimBack` | src/snake.rs:106-111 | the back segment loses one cell and is popped at zero: the total drops by one, every length stays at least 1, and the count drops by at most one |
| `Snakes.GrowFront` | src/snake.rs:112-123 | the front gains a cell, either by lengthening the front segment or by pushing a one-cell segment running opposite to the heading: the total grows by one and every length stays at least 1 |
| `Snakes.MoveKeepsLength` | src/snake.rs:105-124 | a body of two cells or more keeps its total length over one move |
| `Snakes.Snake.constructor` | src/snake.rs:94-103 | start `(5,5)`, heading `XNegative`, one segment `(XPositive, 20)` |
| `Snakes.Snake.MoveForward` | src/snake.rs:105-124 | the body is trimmed at the back; if a segment is left, the start moves to the wrapped `start + direction` and the front grows; total length is kept unless the body had fewer than two cells, which then vanishes; lengths stay at least 1 |
| `Snakes.Snake.Turn` | src/snake.rs:126-128 | only the heading changes, to the turned heading |
| `Snakes.Snake.Segments` | src/snake.rs:130-141 | one more point than segments; the first is `start`; each next point is the previous one moved by a segment's heading and length |

## Left out

- The browser glue is not part of this model: src/lib.rs (the wasm-bindgen wrapper, canvas rendering, the 75 ms timer) and index.js. src/lib.rs also calls `World` functions that src/world.rs does not define.
- The random number generator is not modelled. The value `create_food` draws from `[0, pixel_count)` is the parameter `randomSkip` of `Tick`, `Grow` and `CreateFood`, constrained to that range.
- Worlds.World.Tick: when the snake eats and no Background cell is left, the source panics. The model makes at least one Background cell a precondition instead.
- Worlds.World.CreateFood: the same board-full panic is a precondition.
- Worlds.World.Grow: the same board-full panic is a precondition.
- Screens.Screen.GetColorAt: the source panics on a byte triple that is not one of the four colours; the model returns `None` there. In `CreateFood` such a cell would fail the Background filter and be skipped, where `create_food` panics. `CreateFood` runs only from `Tick` while the game is on, and `PlayingOn` then makes every cell decode, so this case does not arise.
- Colors.FromRgb: the same panic is `None`.
- Worlds.World.constructor: requires `width >= 8` and `height >= 4`; the source accepts any size. On a board 7 cells wide, the food at `(7, h/2 - 2)` has `x >= width`, so `get_buffer_index_for` addresses the next row and `World::new(7, h)` paints `(0, h/2 - 1)`. Below `height = 4` the food row is negative: cast to `usize`, it gives an index far past the buffer, and the write panics. The model covers neither behaviour.
- Worlds.World.ResetGame: the same board-size precondition.
- Worlds.World.CreateInitialSnake: the same board-size precondition.
- Worlds.World.CreateInitialFood: the same board-size precondition.
- Screens.Screen.GetBufferIndexFor: requires an on-board coordinate. In the source, `x >= width` addresses a cell of a later row, and an index past the buffer panics.
- Screens.Screen.GetColorAt: the same on-board precondition.
- Screens.Screen.SetColorAt: the same on-board precondition. The source writes another cell's bytes when `x >= width`.
- Integer overflow panics become preconditions. These cover:
  - i32 fields, as the subset type `I32`;
  - `Coord`/`Vec2D` addition (`CanAdd`);
  - negating the smallest i32 in the rotations;
  - `width * height * 4` fitting in a u32, and the dimensions fitting in an i32;
  - the additions in `add_direction` (`CanAddDirection`).
- Snakes.Snake.Segments: besides i32 overflow, it requires the `Snake` invariant and every segment length to be at most the i32 maximum less 600. This bound keeps every intermediate sum inside i32 wherever the walk goes; the source only panics where a sum actually overflows.
- Snakes.Snake.MoveForward: it requires the invariant the constructor establishes: start on the board, every length at least 1, total length within i32. The source states no precondition; the invariant rules out the i32 overflow of the front increment.
- Worlds.World.Tick: a `VecDeque` is a sequence, and the `expect` on an empty deque cannot fire because the invariant keeps the body non-empty.
- Lazy iterators are sequences: `iter_coords`, `iter_pixels`, `filter`, `map`, `collect`, `cycle`, `skip` and `next`. The `for_each` passes over the screen are `for` loops over `IterCoords`.
- Rust's `usize` arithmetic in `get_buffer_index_for` is plain integer arithmetic. It cannot overflow because the buffer size fits in a u32.
- The public fields of `Screen` are owned by the world in this model. Writes to `pixel_buffer` from outside the engine, as the rendering glue could make, are not modelled.
- The tests of src/snake.rs are not modelled. They expect a two-cell initial snake, while `Snake::new` builds one segment of length 20.
- The match in `tick` has one helper method per arm: `Grow`, `Crash` and `Advance`. Each arm behaves as the source's does.
