/** The pixel buffer the ray tracer draws into: a `width` by `height` image stored
    row-major (pixel (x, y) at offset y * width + x, as raylib lays out an `Image`),
    a background colour used by `clear` and a current "pen" colour used by
    `set_pixel`. */
module Framebuffers {
  import opened Options
  import opened Colors

  /** Rust's `i32`, the type of the buffer's dimensions and of pixel coordinates. */
  type i32 = x: int | -0x8000_0000 <= x < 0x8000_0000

  /** The bounds test shared by `set_pixel` and `get_pixel_color`. */
  predicate InBounds(width: int, height: int, x: int, y: int) {
    0 <= x < width && 0 <= y < height
  }

  /** Row-major offset of pixel (x, y). */
  function Index(width: int, x: int, y: int): int {
    y * width + x
  }

  lemma IndexInRange(width: int, height: int, x: int, y: int)
    requires InBounds(width, height, x, y)
    ensures 0 <= Index(width, x, y) < width * height
  {
    assert 0 <= y * width by { MulNonNegative(y, width); }
    assert y * width + width <= height * width by {
      MulNonNegative(height - 1 - y, width);
    }
  }

  lemma MulNonNegative(a: int, b: int)
    requires 0 <= a && 0 <= b
    ensures 0 <= a * b
  {
  }

  /** Two in-bounds pixels share an offset only if they are the same pixel. */
  lemma IndexInjective(width: int, height: int, x1: int, y1: int, x2: int, y2: int)
    requires InBounds(width, height, x1, y1) && InBounds(width, height, x2, y2)
    requires Index(width, x1, y1) == Index(width, x2, y2)
    ensures x1 == x2 && y1 == y2
  {
    if y1 < y2 {
      RowGap(width, x1, y1, x2, y2);
      assert false;
    } else if y2 < y1 {
      RowGap(width, x2, y2, x1, y1);
      assert false;
    }
  }

  /** Every pixel of a later row lies at a larger offset. */
  lemma RowGap(width: int, x1: int, y1: int, x2: int, y2: int)
    requires 0 <= x1 < width && 0 <= x2 < width && y1 < y2
    ensures Index(width, x1, y1) < Index(width, x2, y2)
  {
    MulNonNegative(y2 - y1 - 1, width);
    assert Index(width, x2, y2) - Index(width, x1, y1) == (y2 - y1 - 1) * width + width + x2 - x1;
  }

  /** raylib's `get_color` behind `get_pixel_color`'s bounds test: the stored colour of
      an in-bounds pixel, `None` outside the buffer. */
  function Lookup(buf: seq<Color>, width: int, height: int, x: int, y: int): Option<Color>
    requires 0 <= width && 0 <= height && |buf| == width * height
  {
    if InBounds(width, height, x, y) then
      IndexInRange(width, height, x, y);
      Some(buf[Index(width, x, y)])
    else
      None
  }

  /** raylib's `draw_pixel` behind `set_pixel`'s bounds test: colour `c` drawn at
      (x, y), or the buffer unchanged when (x, y) is outside it. */
  function Plot(buf: seq<Color>, width: int, height: int, x: int, y: int, c: Color): (r: seq<Color>)
    requires 0 <= width && 0 <= height && |buf| == width * height
    ensures |r| == |buf|
  {
    if InBounds(width, height, x, y) then
      IndexInRange(width, height, x, y);
      buf[Index(width, x, y) := c]
    else
      buf
  }

  /** Reading a pixel after plotting one: the plotted colour at the plotted pixel if it is
      in bounds, the old reading everywhere else (other pixels are untouched, and an
      out-of-bounds plot changes nothing). */
  lemma LookupAfterPlot(buf: seq<Color>, width: int, height: int, x: int, y: int, c: Color, px: int, py: int)
    requires 0 <= width && 0 <= height && |buf| == width * height
    ensures Lookup(Plot(buf, width, height, x, y, c), width, height, px, py)
            == if px == x && py == y && InBounds(width, height, x, y) then Some(c)
               else Lookup(buf, width, height, px, py)
  {
    if InBounds(width, height, x, y) && InBounds(width, height, px, py) {
      IndexInRange(width, height, x, y);
      IndexInRange(width, height, px, py);
      var updated := buf[Index(width, x, y) := c];
      if px == x && py == y {
        assert updated[Index(width, px, py)] == c;
      } else {
        if Index(width, px, py) == Index(width, x, y) {
          IndexInjective(width, height, px, py, x, y);
          assert false;
        }
        assert updated[Index(width, px, py)] == buf[Index(width, px, py)];
      }
    }
  }

  /** Round trip: after an in-bounds plot the pixel reads back as the plotted colour. */
  lemma PlotThenLookup(buf: seq<Color>, width: int, height: int, x: int, y: int, c: Color)
    requires 0 <= width && 0 <= height && |buf| == width * height
    requires InBounds(width, height, x, y)
    ensures Lookup(Plot(buf, width, height, x, y, c), width, height, x, y) == Some(c)
  {
    LookupAfterPlot(buf, width, height, x, y, c, x, y);
  }

  class Framebuffer {
    const width: i32
    const height: i32
    /** The raylib `Image` holding the pixels, row-major. */
    const colorBuffer: array<Color>
    var background: Color
    var current: Color

    ghost predicate Valid()
      reads this
    {
      0 <= width && 0 <= height && colorBuffer.Length == width * height
    }

    /** `Framebuffer::new`: every pixel and the background are black, the pen is white. */
    constructor (width: i32, height: i32)
      requires 0 <= width && 0 <= height
      ensures Valid() && fresh(colorBuffer)
      ensures this.width == width && this.height == height
      ensures forall k :: 0 <= k < colorBuffer.Length ==> colorBuffer[k] == BLACK
      ensures background == BLACK && current == WHITE
    {
      this.width := width;
      this.height := height;
      colorBuffer := new Color[width * height](_ => BLACK);
      background := BLACK;
      current := WHITE;
    }

    /** `clear`: every pixel takes the background colour; both colours stay as they were. */
    method Clear()
      requires Valid()
      modifies colorBuffer
      ensures forall k :: 0 <= k < colorBuffer.Length ==> colorBuffer[k] == background
    {
      forall k | 0 <= k < colorBuffer.Length {
        colorBuffer[k] := background;
      }
    }

    /** `set_pixel`: draws the current colour at (x, y) when that pixel is in bounds and
        otherwise leaves every pixel as it was. */
    method SetPixel(x: i32, y: i32)
      requires Valid()
      modifies colorBuffer
      ensures colorBuffer[..] == Plot(old(colorBuffer[..]), width, height, x, y, current)
      ensures !InBounds(width, height, x, y) ==> colorBuffer[..] == old(colorBuffer[..])
    {
      if x >= 0 && x < width && y >= 0 && y < height {
        IndexInRange(width, height, x, y);
        colorBuffer[y * width + x] := current;
      }
    }

    /** `get_pixel_color`: `None` exactly when (x, y) is out of bounds, otherwise the stored
        colour; it changes nothing although the source takes `&mut self`. */
    method GetPixelColor(x: i32, y: i32) returns (c: Option<Color>)
      requires Valid()
      ensures c == Lookup(colorBuffer[..], width, height, x, y)
      ensures c.None? <==> !InBounds(width, height, x, y)
    {
      if x >= 0 && x < width && y >= 0 && y < height {
        IndexInRange(width, height, x, y);
        c := Some(colorBuffer[y * width + x]);
      } else {
        c := None;
      }
    }

    /** `set_background_color`: changes the background only; no pixel changes until the
        next `clear`. */
    method SetBackgroundColor(color: Color)
      modifies this`background
      ensures background == color
      ensures current == old(current) && colorBuffer[..] == old(colorBuffer[..])
    {
      background := color;
    }

    /** `set_current_color`: changes the pen colour only; no pixel changes. */
    method SetCurrentColor(color: Color)
      modifies this`current
      ensures current == color
      ensures background == old(background) && colorBuffer[..] == old(colorBuffer[..])
    {
      current := color;
    }
  }
}
