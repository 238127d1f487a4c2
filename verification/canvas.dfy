/**
  The canvas: a width, a height and a row-major buffer of width * height
  colors, pixel (x, y) stored at index y * width + x.
 */
module Canvases {
  import opened Base
  import Colors

  datatype Canvas = Canvas(width: nat, height: nat, pixels: seq<Colors.Color>)

  /** The buffer has one color per cell; `new` establishes this and `write_pixel` keeps it. */
  predicate Valid(c: Canvas)
  {
    |c.pixels| == c.width * c.height
  }

  /** `Canvas::new`: width * height black pixels. */
  function New(width: nat, height: nat): (c: Canvas)
    ensures Valid(c) && c.width == width && c.height == height
    ensures forall i :: 0 <= i < |c.pixels| ==> c.pixels[i] == Colors.Black
  {
    Canvas(width, height, seq(width * height, _ => Colors.Black))
  }

  /** The index `write_pixel` and `pixel_at` use, and the only bound they check (the buffer's own). */
  function Index(c: Canvas, x: nat, y: nat): nat
  {
    y * c.width + x
  }

  predicate InBuffer(c: Canvas, x: nat, y: nat)
  {
    Index(c, x, y) < c.width * c.height
  }

  /**
    `write_pixel`: replaces the color at y * width + x. Only that buffer index
    is checked, so an x past the row's end lands in a later row.
   */
  function WritePixel(c: Canvas, x: nat, y: nat, color: Colors.Color): (r: Canvas)
    requires Valid(c) && InBuffer(c, x, y)
    ensures Valid(r) && r.width == c.width && r.height == c.height
    ensures |r.pixels| == |c.pixels|
    ensures r.pixels[Index(c, x, y)] == color
    ensures forall i :: 0 <= i < |c.pixels| && i != Index(c, x, y) ==> r.pixels[i] == c.pixels[i]
  {
    c.(pixels := c.pixels[Index(c, x, y) := color])
  }

  /** `pixel_at`: the color at y * width + x. */
  function PixelAt(c: Canvas, x: nat, y: nat): Colors.Color
    requires Valid(c) && InBuffer(c, x, y)
  {
    c.pixels[Index(c, x, y)]
  }

  /** Every pixel of a new canvas inside the grid reads back black. */
  lemma NewIsBlack(width: nat, height: nat, x: nat, y: nat)
    requires x < width && y < height
    ensures InBuffer(New(width, height), x, y)
    ensures PixelAt(New(width, height), x, y) == Colors.Black
  {
    FlatIndexInRange(y, x, height, width);
    assert y * width + x < width * height;
  }

  /** Reading a pixel back after writing it returns the color written. */
  lemma WriteThenRead(c: Canvas, x: nat, y: nat, color: Colors.Color)
    requires Valid(c) && InBuffer(c, x, y)
    ensures PixelAt(WritePixel(c, x, y, color), x, y) == color
  {
  }

  /** Inside the grid, distinct coordinates have distinct buffer indices. */
  lemma IndexInjective(c: Canvas, x: nat, y: nat, x': nat, y': nat)
    requires x < c.width && x' < c.width
    ensures Index(c, x, y) == Index(c, x', y') <==> x == x' && y == y'
  {
    if Index(c, x, y) == Index(c, x', y') {
      FlatIndexDivMod(y, x, c.width);
      FlatIndexDivMod(y', x', c.width);
    }
  }

  /** Writing one pixel inside the grid leaves every other pixel inside the grid as it was. */
  lemma WriteLeavesOthers(c: Canvas, x: nat, y: nat, x': nat, y': nat, color: Colors.Color)
    requires Valid(c) && x < c.width && y < c.height && x' < c.width && y' < c.height
    requires x != x' || y != y'
    ensures InBuffer(c, x, y) && InBuffer(c, x', y')
    ensures PixelAt(WritePixel(c, x, y, color), x', y') == PixelAt(c, x', y')
  {
    FlatIndexInRange(y, x, c.height, c.width);
    FlatIndexInRange(y', x', c.height, c.width);
    IndexInjective(c, x, y, x', y');
  }

  /**
    The missing column check: writing at x = width + k of row y is writing at
    column k of row y + 1.
   */
  lemma WriteWrapsToNextRow(c: Canvas, k: nat, y: nat, color: Colors.Color)
    requires Valid(c) && InBuffer(c, c.width + k, y)
    ensures Index(c, c.width + k, y) == Index(c, k, y + 1)
    ensures InBuffer(c, k, y + 1)
    ensures WritePixel(c, c.width + k, y, color) == WritePixel(c, k, y + 1, color)
  {
    NextRow(y, c.width);
  }

  const Red: Colors.Color := Colors.NewColor(1.0, 0.0, 0.0)

  /** The source's example: a 10 by 20 canvas, red written at (2, 3) and read back. */
  lemma WriteExample()
    ensures Valid(New(10, 20)) && |New(10, 20).pixels| == 200
    ensures InBuffer(New(10, 20), 2, 3)
    ensures PixelAt(WritePixel(New(10, 20), 2, 3, Red), 2, 3) == Red
  {
  }
}
