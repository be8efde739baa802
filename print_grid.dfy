/** The grid printer (print_grid.py): one line per row of squares, one character per
    square naming the channel that strictly dominates the square's centre pixel. */
module PrintGrid {
  import opened Grid
  import opened Sampling
  import FindConnections

  /** 'G', 'R' or 'B' for the channel larger than both others, '.' when none is. The
      three dominance tests exclude one another, so their order does not matter. */
  function CellChar(p: Pixel): (c: char)
    ensures c == 'G' <==> p.g > p.r && p.g > p.b
    ensures c == 'R' <==> p.r > p.g && p.r > p.b
    ensures c == 'B' <==> p.b > p.r && p.b > p.g
    ensures c == '.' <==> !(p.g > p.r && p.g > p.b) && !(p.r > p.g && p.r > p.b) && !(p.b > p.r && p.b > p.g)
  {
    if p.g > p.r && p.g > p.b then 'G'
    else if p.r > p.g && p.r > p.b then 'R'
    else if p.b > p.r && p.b > p.g then 'B'
    else '.'
  }

  /** The printed 'G' and 'R' squares are exactly the solver's green and red squares. */
  lemma AgreesWithSolver(p: Pixel)
    ensures CellChar(p) == 'G' <==> FindConnections.IsGreen(p)
    ensures CellChar(p) == 'R' <==> FindConnections.IsRed(p)
  {
  }

  /** The characters of row y, for the first n squares. */
  ghost predicate RowDrawn(pixels: seq<seq<Pixel>>, width: nat, height: nat, squareSize: int,
                           y: int, n: int, line: string)
    requires Fits(pixels, width, height) && squareSize > 0
    requires 0 <= y < FloorDiv(height, squareSize) && 0 <= n <= FloorDiv(width, squareSize)
  {
    |line| == n && forall x :: 0 <= x < n ==> line[x] == CellChar(SampledPixel(pixels, width, height, squareSize, x, y))
  }

  /** The printed lines, in order; a square size of zero fails on the division. */
  method PrintGrid(pixels: seq<seq<Pixel>>, width: nat, height: nat, squareSize: int) returns (r: Result<seq<string>>)
    requires Fits(pixels, width, height)
    ensures r.Err? <==> squareSize == 0
    ensures r.Err? ==> r.error == DivisionByZero
    ensures r.Ok? ==> |r.value| == Count(FloorDiv(height, squareSize))
    ensures r.Ok? ==> forall y :: 0 <= y < |r.value| ==>
              (squareSize > 0 && RowDrawn(pixels, width, height, squareSize, y, FloorDiv(width, squareSize), r.value[y]))
  {
    if squareSize == 0 {
      return Err(DivisionByZero);
    }
    var gridW, gridH := FloorDiv(width, squareSize), FloorDiv(height, squareSize);
    var lines: seq<string> := [];
    var y := 0;
    while y < gridH
      invariant 0 <= y <= Count(gridH) && |lines| == y
      invariant y > 0 ==> squareSize > 0
      invariant forall j :: 0 <= j < y ==> RowDrawn(pixels, width, height, squareSize, j, gridW, lines[j])
    {
      assert squareSize > 0;
      var line := "";
      var x := 0;
      while x < gridW
        invariant 0 <= x <= Count(gridW)
        invariant RowDrawn(pixels, width, height, squareSize, y, x, line)
      {
        var p := SamplePoint(pixels, width, height, squareSize, x, y);
        line := line + [CellChar(p)];
        x := x + 1;
      }
      lines := lines + [line];
      y := y + 1;
    }
    r := Ok(lines);
  }
}
