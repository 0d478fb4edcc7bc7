/**
 * The pixel buffer of the engine (`Screen` in src/world.rs): `width * height`
 * cells stored row by row, four bytes `[R, G, B, A]` per cell. The buffer is
 * the only record of what occupies each cell; the ghost field `cells` is its
 * abstract view, one RGB triple per cell.
 */
module Screens {

  import opened Int32
  import opened Wrappers
  import opened Coords
  import opened Colors

  const BYTES_PER_PIXEL: int := 4

  predicate InBounds(c: Coord, width: int, height: int) {
    0 <= c.x < width && 0 <= c.y < height
  }

  predicate OnEdge(c: Coord, width: int, height: int) {
    c.x == 0 || c.y == 0 || c.x == width - 1 || c.y == height - 1
  }

  /** The row-major number of a cell: it numbers the cells of the board from 0. */
  function CellOf(c: Coord, width: int, height: int): (j: int)
    requires InBounds(c, width, height)
    ensures 0 <= j < width * height
  {
    MulMonotone(c.y, height - 1, width);
    c.y * width + c.x
  }

  /** Distinct cells have distinct numbers. */
  lemma CellOfInjective(c: Coord, d: Coord, width: int, height: int)
    requires InBounds(c, width, height) && InBounds(d, width, height)
    requires CellOf(c, width, height) == CellOf(d, width, height)
    ensures c == d
  {
    if c.y < d.y {
      MulMonotone(c.y + 1, d.y, width);
    } else if d.y < c.y {
      MulMonotone(d.y + 1, c.y, width);
    }
  }

  /** The decoded colour of a cell of a row-major board. */
  function CellColor(cells: seq<Rgb>, c: Coord, width: int, height: int): Option<Color>
    requires |cells| == width * height && InBounds(c, width, height)
  {
    FromRgb(cells[CellOf(c, width, height)])
  }

  /** Repainting one cell changes the decoded colour of that cell and of no other. */
  lemma CellColorUpdate(cells: seq<Rgb>, c: Coord, d: Coord, rgb: Rgb, width: int, height: int)
    requires |cells| == width * height && InBounds(c, width, height) && InBounds(d, width, height)
    ensures CellColor(cells[CellOf(d, width, height) := rgb], c, width, height) ==
              if c == d then FromRgb(rgb) else CellColor(cells, c, width, height)
  {
    if c != d && CellOf(c, width, height) == CellOf(d, width, height) {
      CellOfInjective(c, d, width, height);
    }
  }

  function Row(width: int, y: int): (r: seq<Coord>)
    requires 0 <= width <= MAX_I32 && 0 <= y <= MAX_I32
    ensures |r| == width
  {
    seq(width, x requires 0 <= x < width => Coord(x, y))
  }

  /**
   * `iter_coords`: every cell of a width × height board, row by row; the
   * coordinate at position j is the cell numbered j.
   */
  function IterCoords(width: int, height: int): (r: seq<Coord>)
    requires 0 <= width <= MAX_I32 && 0 <= height <= MAX_I32
    ensures |r| == width * height
    ensures forall j :: 0 <= j < |r| ==> InBounds(r[j], width, height) && CellOf(r[j], width, height) == j
    decreases height
  {
    if height == 0 then []
    else
      var above := IterCoords(width, height - 1);
      assert width * height == width * (height - 1) + width;
      above + Row(width, height - 1)
  }

  /** Every cell occurs in `IterCoords`, at its own number. */
  lemma IterCoordsAt(c: Coord, width: int, height: int)
    requires 0 <= width <= MAX_I32 && 0 <= height <= MAX_I32
    requires InBounds(c, width, height)
    ensures 0 <= CellOf(c, width, height) < |IterCoords(width, height)|
    ensures IterCoords(width, height)[CellOf(c, width, height)] == c
  {
    var r := IterCoords(width, height);
    CellOfInjective(r[CellOf(c, width, height)], c, width, height);
  }

  /** The pairs of `iter_pixels`: each cell's decoded colour with its coordinate. */
  function Pixels(cells: seq<Rgb>, coords: seq<Coord>): (r: seq<(Option<Color>, Coord)>)
    requires |cells| == |coords|
    ensures |r| == |cells|
  {
    seq(|cells|, j requires 0 <= j < |cells| => (FromRgb(cells[j]), coords[j]))
  }

  /** `filter(Background).map(coord)`: the Background coordinates, in order. */
  function BackgroundCoords(pixels: seq<(Option<Color>, Coord)>): (free: seq<Coord>)
    ensures |free| <= |pixels|
    ensures forall c :: c in free <==> (Some(Background), c) in pixels
  {
    if pixels == [] then []
    else
      var last := pixels[|pixels| - 1];
      var front := pixels[..|pixels| - 1];
      assert pixels == front + [last];
      BackgroundCoords(front) + (if last.0 == Some(Background) then [last.1] else [])
  }

  /** The Background cells of a board, in row-major order: each one is on the board and Background. */
  function FreeCells(cells: seq<Rgb>, width: int, height: int): (free: seq<Coord>)
    requires 0 <= width <= MAX_I32 && 0 <= height <= MAX_I32
    requires |cells| == width * height
    ensures |free| <= width * height
    ensures forall c :: c in free ==>
              InBounds(c, width, height) && CellColor(cells, c, width, height) == Some(Background)
  {
    BackgroundCoordsAreFree(cells, width, height);
    BackgroundCoords(Pixels(cells, IterCoords(width, height)))
  }

  lemma BackgroundCoordsAreFree(cells: seq<Rgb>, width: int, height: int)
    requires 0 <= width <= MAX_I32 && 0 <= height <= MAX_I32
    requires |cells| == width * height
    ensures forall c :: c in BackgroundCoords(Pixels(cells, IterCoords(width, height))) ==>
              InBounds(c, width, height) && CellColor(cells, c, width, height) == Some(Background)
  {
    var coords := IterCoords(width, height);
    var pixels := Pixels(cells, coords);
    forall c | c in BackgroundCoords(pixels)
      ensures InBounds(c, width, height) && CellColor(cells, c, width, height) == Some(Background)
    {
      var j :| 0 <= j < |pixels| && pixels[j] == (Some(Background), c);
      assert coords[j] == c && CellOf(c, width, height) == j;
    }
  }

  /** Filtering one pixel more appends that pixel's coordinate when it is Background. */
  lemma BackgroundCoordsSnoc(pixels: seq<(Option<Color>, Coord)>, n: nat)
    requires 0 < n <= |pixels|
    ensures BackgroundCoords(pixels[..n]) ==
              BackgroundCoords(pixels[..n - 1]) + (if pixels[n - 1].0 == Some(Background) then [pixels[n - 1].1] else [])
  {
    assert pixels[..n][..n - 1] == pixels[..n - 1];
  }

  /**
   * Filtering a prefix of row-major pixels keeps them in order: every kept
   * coordinate is numbered below the prefix length, and the numbers increase.
   */
  lemma {:induction false} BackgroundCoordsOrdered(pixels: seq<(Option<Color>, Coord)>, width: int, height: int, n: nat)
    requires n <= |pixels|
    requires forall j :: 0 <= j < |pixels| ==> InBounds(pixels[j].1, width, height) && CellOf(pixels[j].1, width, height) == j
    ensures var f := BackgroundCoords(pixels[..n]);
            && (forall i :: 0 <= i < |f| ==> InBounds(f[i], width, height) && CellOf(f[i], width, height) < n)
            && (forall i, j :: 0 <= i < j < |f| ==> CellOf(f[i], width, height) < CellOf(f[j], width, height))
    decreases n
  {
    if n > 0 {
      BackgroundCoordsOrdered(pixels, width, height, n - 1);
      BackgroundCoordsSnoc(pixels, n);
      var front := BackgroundCoords(pixels[..n - 1]);
      if pixels[n - 1].0 == Some(Background) {
        var f := front + [pixels[n - 1].1];
        assert forall i :: 0 <= i < |front| ==> f[i] == front[i];
      }
    }
  }

  /** `create_food` collects the Background cells in row-major order, so each occurs once. */
  lemma FreeCellsRowMajor(cells: seq<Rgb>, width: int, height: int)
    requires 0 <= width <= MAX_I32 && 0 <= height <= MAX_I32
    requires |cells| == width * height
    ensures var f := FreeCells(cells, width, height);
            forall i, j :: 0 <= i < j < |f| ==> CellOf(f[i], width, height) < CellOf(f[j], width, height) && f[i] != f[j]
  {
    var coords := IterCoords(width, height);
    var pixels := Pixels(cells, coords);
    assert forall j :: 0 <= j < |pixels| ==> pixels[j].1 == coords[j];
    BackgroundCoordsOrdered(pixels, width, height, |pixels|);
    assert pixels[..|pixels|] == pixels;
    assert FreeCells(cells, width, height) == BackgroundCoords(pixels);
  }

  /** A coordinate is free exactly when it is on the board and its cell is Background. */
  lemma FreeCellsExactly(cells: seq<Rgb>, width: int, height: int, c: Coord)
    requires 0 <= width <= MAX_I32 && 0 <= height <= MAX_I32
    requires |cells| == width * height
    ensures c in FreeCells(cells, width, height) <==>
              InBounds(c, width, height) && CellColor(cells, c, width, height) == Some(Background)
  {
    var coords := IterCoords(width, height);
    var pixels := Pixels(cells, coords);
    assert FreeCells(cells, width, height) == BackgroundCoords(pixels);
    if c in BackgroundCoords(pixels) {
      var j :| 0 <= j < |pixels| && pixels[j] == (Some(Background), c);
      assert FromRgb(cells[j]) == Some(Background) && coords[j] == c;
      assert CellOf(c, width, height) == j;
    }
    if InBounds(c, width, height) && CellColor(cells, c, width, height) == Some(Background) {
      IterCoordsAt(c, width, height);
      assert pixels[CellOf(c, width, height)] == (Some(Background), c);
    }
  }

  /** `cycle().skip(n).next()`: the element n steps into the endless repetition of `s`. */
  function CycleNth<T>(s: seq<T>, n: nat): (r: Option<T>)
    ensures r.None? <==> s == []
    ensures r.Some? ==> r.value in s
    decreases n
  {
    if s == [] then None
    else if n < |s| then Some(s[n])
    else CycleNth(s, n - |s|)
  }

  lemma {:induction false} CycleNthIsMod<T>(s: seq<T>, n: nat)
    ensures CycleNth(s, n) == if s == [] then None else Some(s[n % |s|])
    decreases n
  {
    if s != [] && n >= |s| {
      CycleNthIsMod(s, n - |s|);
      DivModUnique(n, |s|, (n - |s|) / |s| + 1, (n - |s|) % |s|);
    }
  }

  class Screen {

    const width: int
    const height: int
    const pixelCount: int
    const pixelBuffer: array<Byte>

    /** The RGB triple of every cell, row by row. */
    ghost var cells: seq<Rgb>

    /** The dimensions: `width * height * 4` fits in a u32, as the source's arithmetic needs. */
    ghost predicate Shape() {
      && 0 < width <= MAX_I32
      && 0 < height <= MAX_I32
      && pixelCount == width * height
      && pixelCount * BYTES_PER_PIXEL <= MAX_U32
      && pixelBuffer.Length == pixelCount * BYTES_PER_PIXEL
    }

    ghost function PixelAt(j: int): Rgb
      reads pixelBuffer
      requires 0 <= j && BYTES_PER_PIXEL * j + 2 < pixelBuffer.Length
    {
      var i := BYTES_PER_PIXEL * j;
      Rgb(pixelBuffer[i], pixelBuffer[i + 1], pixelBuffer[i + 2])
    }

    ghost function AlphaAt(j: int): Byte
      reads pixelBuffer
      requires 0 <= j && BYTES_PER_PIXEL * j + 3 < pixelBuffer.Length
    {
      pixelBuffer[BYTES_PER_PIXEL * j + 3]
    }

    /** The bytes hold exactly `cells`, and every alpha byte is still 255. */
    ghost predicate Valid()
      reads this, pixelBuffer
    {
      && Shape()
      && |cells| == pixelCount
      && (forall j :: 0 <= j < pixelCount ==> PixelAt(j) == cells[j])
      && (forall j :: 0 <= j < pixelCount ==> AlphaAt(j) == 255)
    }

    ghost function ColorAt(c: Coord): Option<Color>
      reads this
      requires Shape() && |cells| == pixelCount && InBounds(c, width, height)
    {
      CellColor(cells, c, width, height)
    }

    /** `Screen::new`: every byte is 255, so no cell holds one of the four colours yet. */
    constructor (width: int, height: int)
      requires 0 < width && 0 < height
      requires width * height * BYTES_PER_PIXEL <= MAX_U32
      ensures Valid() && fresh(pixelBuffer)
      ensures this.width == width && this.height == height
      ensures forall i :: 0 <= i < pixelBuffer.Length ==> pixelBuffer[i] == 255
      ensures forall j :: 0 <= j < pixelCount ==> cells[j] == Rgb(255, 255, 255)
    {
      MulMonotone(1, height, width * BYTES_PER_PIXEL);
      MulMonotone(1, width, height * BYTES_PER_PIXEL);
      this.width := width;
      this.height := height;
      pixelCount := width * height;
      pixelBuffer := new Byte[width * height * BYTES_PER_PIXEL](_ => 255);
      cells := seq(width * height, _ => Rgb(255, 255, 255));
    }

    /** The first byte of a cell: the cell's own four bytes lie inside the buffer. */
    function GetBufferIndexFor(c: Coord): (i: int)
      requires Shape() && InBounds(c, width, height)
      ensures 0 <= i && i + BYTES_PER_PIXEL <= pixelBuffer.Length
      ensures i % BYTES_PER_PIXEL == 0
      ensures IterCoords(width, height)[i / BYTES_PER_PIXEL] == c
    {
      IterCoordsAt(c, width, height);
      CellOf(c, width, height) * BYTES_PER_PIXEL
    }

    /** Reads the three colour bytes of a cell back; `None` where the source panics. */
    function GetColorAt(c: Coord): (color: Option<Color>)
      reads this, pixelBuffer
      requires Valid() && InBounds(c, width, height)
      ensures color == ColorAt(c)
    {
      var i := GetBufferIndexFor(c);
      FromRgb(Rgb(pixelBuffer[i], pixelBuffer[i + 1], pixelBuffer[i + 2]))
    }

    /** Writes exactly the three colour bytes of one cell. */
    method SetColorAt(c: Coord, color: Color)
      requires Valid() && InBounds(c, width, height)
      modifies this, pixelBuffer
      ensures Valid()
      ensures cells == old(cells)[CellOf(c, width, height) := ToRgb(color)]
      ensures forall d :: InBounds(d, width, height) ==>
                ColorAt(d) == if d == c then Some(color) else old(ColorAt(d))
      ensures var i := GetBufferIndexFor(c);
              && pixelBuffer[i] == ToRgb(color).r
              && pixelBuffer[i + 1] == ToRgb(color).g
              && pixelBuffer[i + 2] == ToRgb(color).b
              && forall k :: 0 <= k < pixelBuffer.Length && !(i <= k < i + 3) ==>
                   pixelBuffer[k] == old(pixelBuffer[k])
    {
      var i := GetBufferIndexFor(c);
      ghost var k := CellOf(c, width, height);
      assert i == BYTES_PER_PIXEL * k;
      var rgb := ToRgb(color);
      pixelBuffer[i] := rgb.r;
      pixelBuffer[i + 1] := rgb.g;
      pixelBuffer[i + 2] := rgb.b;
      cells := cells[k := rgb];
      forall j | 0 <= j < pixelCount
        ensures PixelAt(j) == cells[j] && AlphaAt(j) == 255
      {
        if j != k {
          assert PixelAt(j) == old(PixelAt(j));
        }
        assert AlphaAt(j) == old(AlphaAt(j));
      }
      DecodeEncode(color);
      forall d | InBounds(d, width, height) && d != c
        ensures CellOf(d, width, height) != CellOf(c, width, height)
      {
        if CellOf(d, width, height) == CellOf(c, width, height) {
          CellOfInjective(d, c, width, height);
        }
      }
    }

    /** `clear`: every cell becomes Background. */
    method Clear()
      requires Valid()
      modifies this, pixelBuffer
      ensures Valid()
      ensures forall j :: 0 <= j < pixelCount ==> cells[j] == ToRgb(Background)
      ensures forall d :: InBounds(d, width, height) ==> ColorAt(d) == Some(Background)
    {
      var coords := IterCoords(width, height);
      for k := 0 to |coords|
        invariant Valid()
        invariant forall j :: 0 <= j < k ==> cells[j] == ToRgb(Background)
      {
        SetColorAt(coords[k], Background);
      }
      DecodeEncode(Background);
    }

    /** `set_color_at_edges`: the border cells take `color`, the interior is untouched. */
    method SetColorAtEdges(color: Color)
      requires Valid()
      modifies this, pixelBuffer
      ensures Valid()
      ensures forall j :: 0 <= j < pixelCount ==>
                cells[j] == if OnEdge(IterCoords(width, height)[j], width, height) then ToRgb(color) else old(cells[j])
      ensures forall d :: InBounds(d, width, height) ==>
                ColorAt(d) == if OnEdge(d, width, height) then Some(color) else old(ColorAt(d))
    {
      var coords := IterCoords(width, height);
      for k := 0 to |coords|
        invariant Valid()
        invariant forall j :: 0 <= j < k ==>
                    cells[j] == if OnEdge(coords[j], width, height) then ToRgb(color) else old(cells[j])
        invariant forall j :: k <= j < pixelCount ==> cells[j] == old(cells[j])
      {
        if OnEdge(coords[k], width, height) {
          SetColorAt(coords[k], color);
        }
      }
      DecodeEncode(color);
      forall d | InBounds(d, width, height)
        ensures ColorAt(d) == if OnEdge(d, width, height) then Some(color) else old(ColorAt(d))
      {
        IterCoordsAt(d, width, height);
      }
    }

    /** `iter_pixels`: the colour and coordinate of every cell, row by row. */
    method IterPixels() returns (pixels: seq<(Option<Color>, Coord)>)
      requires Valid()
      ensures pixels == Pixels(cells, IterCoords(width, height))
    {
      var coords := IterCoords(width, height);
      pixels := [];
      for k := 0 to |coords|
        invariant |pixels| == k
        invariant forall j :: 0 <= j < k ==> pixels[j] == (FromRgb(cells[j]), coords[j])
      {
        pixels := pixels + [(GetColorAt(coords[k]), coords[k])];
      }
    }
  }

  /** Two screens with the same cells hold the same bytes, alpha included. */
  lemma SameCellsSameBytes(s: Screen, t: Screen)
    requires s.Valid() && t.Valid()
    requires s.pixelCount == t.pixelCount && s.cells == t.cells
    ensures s.pixelBuffer[..] == t.pixelBuffer[..]
  {
    forall i | 0 <= i < s.pixelBuffer.Length
      ensures s.pixelBuffer[i] == t.pixelBuffer[i]
    {
      var j := i / BYTES_PER_PIXEL;
      assert i == BYTES_PER_PIXEL * j + i % BYTES_PER_PIXEL;
      assert s.PixelAt(j) == t.PixelAt(j) && s.AlphaAt(j) == t.AlphaAt(j);
    }
  }
}
