/** Reading one pixel per square, as the Python programs do: the grid is width // size
    squares across and height // size down, and square (x, y) is read at its centre
    (x * size + size // 2, y * size + size // 2), pulled back to the last pixel when it
    would fall outside the image. `//` is Python's floor division. */
module Sampling {
  import opened Grid

  /** Python's `a // b`: the quotient rounded down. */
  function FloorDiv(a: int, b: int): int
    requires b != 0
  {
    if b > 0 then a / b else (-a) / (-b)
  }

  /** The quotient rounded down: q * b and q * b + b enclose a. */
  lemma FloorDivBounds(a: int, b: int)
    requires b != 0
    ensures b > 0 ==> FloorDiv(a, b) * b <= a < FloorDiv(a, b) * b + b
    ensures b < 0 ==> FloorDiv(a, b) * b + b < a <= FloorDiv(a, b) * b
  {
  }

  lemma FloorDivNonNegative(a: int, b: int)
    requires a >= 0 && b > 0
    ensures FloorDiv(a, b) >= 0
  {
  }

  /** How many times `for _ in range(n)` runs. */
  function Count(n: int): nat {
    if n > 0 then n else 0
  }

  /** The bounds check: a coordinate at or past the edge becomes the last one. */
  function Clamp(s: int, size: int): int {
    if s >= size then size - 1 else s
  }

  /** The coordinate read for square i along an edge of `size` pixels. */
  function SamplePos(i: int, squareSize: int, size: int): int
    requires squareSize != 0
  {
    Clamp(i * squareSize + FloorDiv(squareSize, 2), size)
  }

  /** For a positive square size and a square of the grid, the centre lies strictly inside
      the image, so the bounds check never changes it. */
  lemma SampleInside(i: int, squareSize: int, size: int)
    requires squareSize > 0 && 0 <= i < FloorDiv(size, squareSize)
    ensures SamplePos(i, squareSize, size) == i * squareSize + squareSize / 2
    ensures 0 <= SamplePos(i, squareSize, size) < size
  {
    var n := FloorDiv(size, squareSize);
    FloorDivBounds(size, squareSize);
    assert (i + 1) * squareSize <= n * squareSize by {
      assert i + 1 <= n;
      MulMono(i + 1, n, squareSize);
    }
    assert i * squareSize >= 0 by {
      MulMono(0, i, squareSize);
    }
  }

  lemma MulMono(a: int, b: int, c: int)
    requires a <= b && c > 0
    ensures a * c <= b * c
  {
    assert b * c - a * c == (b - a) * c;
  }

  /** The pixel read for square (x, y). */
  function SampledPixel(pixels: seq<seq<Pixel>>, width: nat, height: nat, squareSize: int, x: int, y: int): Pixel
    requires Fits(pixels, width, height) && squareSize > 0
    requires 0 <= x < FloorDiv(width, squareSize) && 0 <= y < FloorDiv(height, squareSize)
  {
    SampleInside(x, squareSize, width);
    SampleInside(y, squareSize, height);
    pixels[SamplePos(y, squareSize, height)][SamplePos(x, squareSize, width)]
  }

  /** The grid of squares read from the image, row by row: FloorDiv(height, size) rows of
      FloorDiv(width, size) pixels. */
  function SampledGrid(pixels: seq<seq<Pixel>>, width: nat, height: nat, squareSize: int): (grid: seq<seq<Pixel>>)
    requires Fits(pixels, width, height) && squareSize > 0
    ensures |grid| == FloorDiv(height, squareSize)
    ensures forall y :: 0 <= y < |grid| ==> |grid[y]| == FloorDiv(width, squareSize)
  {
    var gw, gh := FloorDiv(width, squareSize), FloorDiv(height, squareSize);
    seq(gh, y requires 0 <= y < gh =>
      seq(gw, x requires 0 <= x < gw => SampledPixel(pixels, width, height, squareSize, x, y)))
  }

  /** Reading square (x, y): its centre, the bounds check, the pixel there. */
  method SamplePoint(pixels: seq<seq<Pixel>>, width: nat, height: nat, squareSize: int, x: int, y: int) returns (p: Pixel)
    requires Fits(pixels, width, height) && squareSize > 0
    requires 0 <= x < FloorDiv(width, squareSize) && 0 <= y < FloorDiv(height, squareSize)
    ensures p == SampledGrid(pixels, width, height, squareSize)[y][x]
  {
    var sx := x * squareSize + FloorDiv(squareSize, 2);
    var sy := y * squareSize + FloorDiv(squareSize, 2);
    if sx >= width { sx := width - 1; }
    if sy >= height { sy := height - 1; }
    SampleInside(x, squareSize, width);
    SampleInside(y, squareSize, height);
    p := pixels[sy][sx];
  }
}
