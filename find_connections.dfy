/** The Python solver (connect_glyphs/find_connections.py): read one pixel per 16-pixel
    square, label the green blocks, sort them by centre with a stable sort, name them and
    record for each block the later blocks a red corridor leads to. */
module FindConnections {
  import opened Grid
  import opened Labelling
  import opened Blocks
  import opened Sampling
  import GoGlyphs

  const SquareSize := 16

  /** Green: the green channel exceeds both others. */
  predicate IsGreen(p: Pixel) {
    p.g > p.r && p.g > p.b
  }

  /** Red: the red channel exceeds both others. */
  predicate IsRed(p: Pixel) {
    p.r > p.g && p.r > p.b
  }

  /** No pixel is both; a pixel is neither exactly when red ties green or blue is at
      least as large as both, which covers every tie for the largest channel. */
  lemma Colours(p: Pixel)
    ensures !(IsGreen(p) && IsRed(p))
    ensures !IsGreen(p) && !IsRed(p) <==> p.r == p.g || (p.b >= p.r && p.b >= p.g)
    ensures (p.g == p.b && p.g >= p.r) || (p.r == p.b && p.r >= p.g) ==> !IsGreen(p) && !IsRed(p)
  {
  }

  /** These classes are stricter than the Go program's, which ignores blue: a bluish
      pixel with more green than red is green there and neither here. */
  lemma ColoursAgainstGo(p: Pixel)
    ensures IsGreen(p) ==> GoGlyphs.IsGreen(p)
    ensures IsRed(p) ==> GoGlyphs.IsRed(p)
    ensures GoGlyphs.IsGreen(Pixel(0, 10, 200)) && !IsGreen(Pixel(0, 10, 200))
  {
  }

  /** The centre of a block's bounding box, halved with floor division; (0, 0) for a
      block without cells. */
  function CalculateCenter(ps: seq<Point>): (c: Point)
    ensures |ps| == 0 ==> c == Point(0, 0)
    ensures |ps| > 0 ==> InBox(ps, c)
  {
    if |ps| == 0 then Point(0, 0)
    else Point(FloorDiv(MinX(ps) + MaxX(ps), 2), FloorDiv(MinY(ps) + MaxY(ps), 2))
  }

  /** Step 1: fill the grid with the pixel read at the centre of each square. */
  method ParseGrid(pixels: seq<seq<Pixel>>, width: nat, height: nat) returns (gridW: nat, gridH: nat, grid: seq<seq<Pixel>>)
    requires Fits(pixels, width, height)
    ensures gridW == FloorDiv(width, SquareSize) && gridH == FloorDiv(height, SquareSize)
    ensures grid == SampledGrid(pixels, width, height, SquareSize)
  {
    gridW, gridH := FloorDiv(width, SquareSize), FloorDiv(height, SquareSize);
    grid := seq(gridH, _ => seq(gridW, _ => Pixel(0, 0, 0)));
    ghost var target := SampledGrid(pixels, width, height, SquareSize);
    var y := 0;
    while y < gridH
      invariant 0 <= y <= gridH && |grid| == gridH
      invariant forall j :: 0 <= j < gridH ==> |grid[j]| == gridW
      invariant forall j :: 0 <= j < y ==> grid[j] == target[j]
    {
      var x := 0;
      while x < gridW
        invariant 0 <= x <= gridW && |grid| == gridH
        invariant forall j :: 0 <= j < gridH ==> |grid[j]| == gridW
        invariant forall j :: 0 <= j < y ==> grid[j] == target[j]
        invariant forall i :: 0 <= i < x ==> grid[y][i] == target[y][i]
      {
        var p := SamplePoint(pixels, width, height, SquareSize, x, y);
        grid := grid[y := grid[y][x := p]];
        x := x + 1;
      }
      assert grid[y] == target[y];
      y := y + 1;
    }
  }

  /** Step 2, after labelling: block k gets id k, no name yet, and its centre. */
  predicate Discovered(comps: seq<seq<Point>>, found: seq<Block>) {
    |found| == |comps| &&
    forall k :: 0 <= k < |comps| ==> found[k] == Block(k, "", comps[k], CalculateCenter(comps[k]))
  }

  method MakeBlocks(comps: seq<seq<Point>>) returns (found: seq<Block>)
    ensures Discovered(comps, found)
  {
    found := [];
    var k := 0;
    while k < |comps|
      invariant 0 <= k <= |comps| && |found| == k
      invariant forall j :: 0 <= j < k ==> found[j] == Block(j, "", comps[j], CalculateCenter(comps[j]))
    {
      found := found + [Block(|found|, "", comps[k], CalculateCenter(comps[k]))];
      k := k + 1;
    }
  }

  /** Each block starts at its first cell in reading order, and blocks with equal centres
      keep the order the scan found them in. */
  ghost predicate TiesInScanOrder(blocks: seq<Block>) {
    && (forall i :: 0 <= i < |blocks| ==> |blocks[i].points| > 0)
    && (forall i, q :: 0 <= i < |blocks| && q in blocks[i].points && q != blocks[i].points[0] ==>
          Before(blocks[i].points[0], q))
    && (forall i, j :: 0 <= i < j < |blocks| && blocks[i].center == blocks[j].center ==>
          Before(blocks[i].points[0], blocks[j].points[0]))
  }

  lemma SortedInScanOrder(comps: seq<seq<Point>>, found: seq<Block>, blocks: seq<Block>)
    requires ReadingOrder(comps) && Discovered(comps, found)
    requires Renumbered(SortByCentre(found), blocks)
    ensures TiesInScanOrder(blocks)
    ensures forall i :: 0 <= i < |blocks| ==> blocks[i].center == CalculateCenter(blocks[i].points)
  {
    var sorted := SortByCentre(found);
    assert IdsIncreasing(found);
    SortByCentreStable(found);
    SortByCentrePermutes(found);
    forall i | 0 <= i < |blocks|
      ensures 0 <= sorted[i].id < |comps| && blocks[i].points == comps[sorted[i].id]
      ensures blocks[i].center == CalculateCenter(blocks[i].points)
    {
      assert sorted[i] in multiset(found);
      var m :| 0 <= m < |found| && found[m] == sorted[i];
    }
    forall i, j | 0 <= i < j < |blocks| && blocks[i].center == blocks[j].center
      ensures Before(blocks[i].points[0], blocks[j].points[0])
    {
      assert sorted[i].id < sorted[j].id;
    }
  }

  /** solve_puzzle on an image already loaded: the graph of green blocks over the grid of
      sampled squares, with the blocks beside it; from block 702 on naming fails. */
  method SolvePuzzle(pixels: seq<seq<Pixel>>, width: nat, height: nat)
    returns (grid: seq<seq<Pixel>>, r: Result<seq<GraphNode>>, blocks: seq<Block>)
    requires Fits(pixels, width, height)
    ensures grid == SampledGrid(pixels, width, height, SquareSize)
    ensures FoundBlocks(grid, FloorDiv(width, SquareSize), FloorDiv(height, SquareSize), IsGreen, blocks)
    ensures forall i :: 0 <= i < |blocks| ==> blocks[i].center == CalculateCenter(blocks[i].points)
    ensures CentreSorted(blocks) && TiesInScanOrder(blocks)
    ensures r.Ok? <==> |blocks| <= 702
    ensures r.Err? ==> r.error == IndexOutOfRange
    ensures r.Ok? ==> Numbered(blocks) && Records(blocks, r.value) &&
                      Wired(grid, FloorDiv(width, SquareSize), FloorDiv(height, SquareSize), IsRed, blocks, r.value)
  {
    var gridW, gridH;
    gridW, gridH, grid := ParseGrid(pixels, width, height);
    var comps := Scan(grid, gridW, gridH, IsGreen);
    var found := MakeBlocks(comps);
    assert Parts(found) == comps;
    r, blocks := Connect(grid, gridW, gridH, IsGreen, IsRed, found);
    SortedInScanOrder(comps, found, blocks);
    SortByCentreSorted(found);
    RenumberedSorted(SortByCentre(found), blocks);
  }
}
