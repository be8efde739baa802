/** The Go program (main.go): colour classes, the search for green cells that share a
    green-or-red component with another green cell, with the four worked examples of
    its `main`, and the connectivity graph of green blocks. */
module GoGlyphs {
  import opened Grid
  import opened Flood
  import opened Labelling
  import opened Corridor
  import opened Blocks

  /** Green: the green channel exceeds the red one; blue is not looked at. */
  predicate IsGreen(p: Pixel) {
    p.g > p.r
  }

  /** Red: the red channel exceeds the green one. */
  predicate IsRed(p: Pixel) {
    p.r > p.g
  }

  predicate GreenOrRed(p: Pixel) {
    IsGreen(p) || IsRed(p)
  }

  /** No pixel is both; exactly the pixels with equal red and green channels are neither. */
  lemma Colours(p: Pixel)
    ensures !(IsGreen(p) && IsRed(p))
    ensures !GreenOrRed(p) <==> p.r == p.g
    ensures forall b :: IsGreen(p.(b := b)) == IsGreen(p) && IsRed(p.(b := b)) == IsRed(p)
  {
  }

  /** The grid of squares with the size of the original image recorded beside it. */
  datatype CompressedImage = CompressedImage(
    originalWidth: int, originalHeight: int, squareSize: int,
    gridWidth: int, gridHeight: int, squares: seq<seq<Pixel>>)

  /** The number of columns and rows the loops visit (a negative count visits none). */
  function Width(img: CompressedImage): nat {
    if img.gridWidth > 0 then img.gridWidth else 0
  }

  function Height(img: CompressedImage): nat {
    if img.gridHeight > 0 then img.gridHeight else 0
  }

  /** Every square the loops visit exists. */
  predicate WellFormed(img: CompressedImage) {
    Fits(img.squares, Width(img), Height(img))
  }

  // Green cells of a component that has at least two of them.

  /** The number of green cells in c. */
  ghost function GreenCount(g: seq<seq<Pixel>>, w: nat, h: nat, c: seq<Point>): nat
    decreases |c|
  {
    if c == [] then 0
    else GreenCount(g, w, h, c[..|c| - 1]) + (if Member(g, w, h, IsGreen, c[|c| - 1]) then 1 else 0)
  }

  /** Two different positions of c hold green cells. */
  ghost predicate TwoGreens(g: seq<seq<Pixel>>, w: nat, h: nat, c: seq<Point>) {
    exists i, j :: 0 <= i < j < |c| && Member(g, w, h, IsGreen, c[i]) && Member(g, w, h, IsGreen, c[j])
  }

  lemma {:induction false} SomeGreen(g: seq<seq<Pixel>>, w: nat, h: nat, c: seq<Point>)
    ensures GreenCount(g, w, h, c) > 0 <==> exists i :: 0 <= i < |c| && Member(g, w, h, IsGreen, c[i])
    decreases |c|
  {
    if c != [] {
      var d := c[..|c| - 1];
      SomeGreen(g, w, h, d);
      assert forall i :: 0 <= i < |d| ==> d[i] == c[i];
    }
  }

  /** Counting more than one green cell means two different positions hold green cells. */
  lemma {:induction false} CountTwo(g: seq<seq<Pixel>>, w: nat, h: nat, c: seq<Point>)
    ensures GreenCount(g, w, h, c) > 1 <==> TwoGreens(g, w, h, c)
    decreases |c|
  {
    if c != [] {
      var d := c[..|c| - 1];
      var last := |c| - 1;
      CountTwo(g, w, h, d);
      SomeGreen(g, w, h, d);
      assert forall i :: 0 <= i < |d| ==> d[i] == c[i];
      if TwoGreens(g, w, h, c) {
        var i, j :| 0 <= i < j < |c| && Member(g, w, h, IsGreen, c[i]) && Member(g, w, h, IsGreen, c[j]);
        if j < last {
          assert TwoGreens(g, w, h, d);
        } else {
          assert Member(g, w, h, IsGreen, d[i]);
        }
      }
      if GreenCount(g, w, h, c) > 1 && Member(g, w, h, IsGreen, c[last]) && !TwoGreens(g, w, h, d) {
        var i :| 0 <= i < |d| && Member(g, w, h, IsGreen, d[i]);
        assert Member(g, w, h, IsGreen, c[i]) && Member(g, w, h, IsGreen, c[last]);
      }
    }
  }

  /** The filter after one flood: count the component's green cells, and when there is
      more than one, keep them in component order. */
  method KeepGreens(g: seq<seq<Pixel>>, w: nat, h: nat, comp: seq<Point>) returns (kept: seq<Point>)
    requires AllMembers(g, w, h, GreenOrRed, comp) && NoDups(comp)
    ensures NoDups(kept)
    ensures forall p :: p in kept <==> p in comp && Member(g, w, h, IsGreen, p) && TwoGreens(g, w, h, comp)
  {
    var greenCount := 0;
    var i := 0;
    while i < |comp|
      invariant 0 <= i <= |comp|
      invariant greenCount == GreenCount(g, w, h, comp[..i])
    {
      assert comp[..i + 1][..i] == comp[..i];
      if IsGreen(g[comp[i].y][comp[i].x]) {
        greenCount := greenCount + 1;
      }
      i := i + 1;
    }
    assert comp[..|comp|] == comp;
    CountTwo(g, w, h, comp);
    kept := [];
    if greenCount > 1 {
      i := 0;
      while i < |comp|
        invariant 0 <= i <= |comp|
        invariant NoDups(kept)
        invariant forall p :: p in kept <==> p in comp[..i] && Member(g, w, h, IsGreen, p)
      {
        assert comp[..i + 1] == comp[..i] + [comp[i]];
        if IsGreen(g[comp[i].y][comp[i].x]) {
          assert comp[i] !in comp[..i];
          kept := kept + [comp[i]];
        }
        i := i + 1;
      }
      assert comp[..|comp|] == comp;
    }
  }

  /** A green cell is kept exactly when it is joined through green or red cells to another
      green cell. */
  ghost predicate Connected(g: seq<seq<Pixel>>, w: nat, h: nat, p: Point) {
    Member(g, w, h, IsGreen, p) &&
    exists q :: q != p && Member(g, w, h, IsGreen, q) && Joined(g, w, h, GreenOrRed, p, q)
  }

  lemma KeptIsConnected(g: seq<seq<Pixel>>, w: nat, h: nat, c: seq<Point>, p: Point)
    requires IsComponent(g, w, h, GreenOrRed, c)
    requires p in c && Member(g, w, h, IsGreen, p)
    ensures TwoGreens(g, w, h, c) <==> Connected(g, w, h, p)
  {
    ComponentIsJoined(g, w, h, GreenOrRed, c, p);
    if TwoGreens(g, w, h, c) {
      var i, j :| 0 <= i < j < |c| && Member(g, w, h, IsGreen, c[i]) && Member(g, w, h, IsGreen, c[j]);
      var q := if c[i] != p then c[i] else c[j];
      assert q != p by {
        if c[i] == p {
          assert c[i] != c[j];
        }
      }
      ComponentIsJoined(g, w, h, GreenOrRed, c, q);
      JoinedSymmetric(g, w, h, GreenOrRed, c[0], p);
      JoinedTransitive(g, w, h, GreenOrRed, p, c[0], q);
    }
    if Connected(g, w, h, p) {
      var q :| q != p && Member(g, w, h, IsGreen, q) && Joined(g, w, h, GreenOrRed, p, q);
      JoinedTransitive(g, w, h, GreenOrRed, c[0], p, q);
      ComponentIsJoined(g, w, h, GreenOrRed, c, q);
      var a :| 0 <= a < |c| && c[a] == p;
      var b :| 0 <= b < |c| && c[b] == q;
      if a < b {
        assert Member(g, w, h, IsGreen, c[a]) && Member(g, w, h, IsGreen, c[b]);
      } else {
        assert Member(g, w, h, IsGreen, c[b]) && Member(g, w, h, IsGreen, c[a]);
      }
    }
  }

  /** The result after the first k components. */
  ghost predicate KeptSoFar(g: seq<seq<Pixel>>, w: nat, h: nat, comps: seq<seq<Point>>, k: int, result: seq<Point>) {
    forall p :: p in result <==> exists j :: 0 <= j < k && j < |comps| && p in comps[j] && Member(g, w, h, IsGreen, p) && TwoGreens(g, w, h, comps[j])
  }

  lemma KeepNext(g: seq<seq<Pixel>>, w: nat, h: nat, comps: seq<seq<Point>>, k: int, result: seq<Point>, kept: seq<Point>)
    requires 0 <= k < |comps| && Disjoint(comps)
    requires KeptSoFar(g, w, h, comps, k, result) && NoDups(result)
    requires NoDups(kept)
    requires forall p :: p in kept <==> p in comps[k] && Member(g, w, h, IsGreen, p) && TwoGreens(g, w, h, comps[k])
    ensures KeptSoFar(g, w, h, comps, k + 1, result + kept) && NoDups(result + kept)
  {
    var r := result + kept;
    forall a, b | 0 <= a < b < |r| ensures r[a] != r[b] {
      if a < |result| && b >= |result| {
        assert r[b] in kept && r[a] in result;
        var j :| 0 <= j < k && j < |comps| && r[a] in comps[j] && Member(g, w, h, IsGreen, r[a]) && TwoGreens(g, w, h, comps[j]);
        assert r[b] in comps[k];
      } else if a >= |result| {
        assert r[a] == kept[a - |result|] && r[b] == kept[b - |result|];
      }
    }
  }

  /** FindConnectedGreenSquares: the green cells joined through green or red cells to
      another green cell, each once. */
  method FindConnectedGreenSquares(img: CompressedImage) returns (result: seq<Point>)
    requires WellFormed(img)
    ensures NoDups(result)
    ensures forall p :: p in result <==> Connected(img.squares, Width(img), Height(img), p)
  {
    var g, w, h := img.squares, Width(img), Height(img);
    var comps := Scan(g, w, h, GreenOrRed);
    result := [];
    var k := 0;
    while k < |comps|
      invariant 0 <= k <= |comps|
      invariant NoDups(result) && KeptSoFar(g, w, h, comps, k, result)
    {
      var kept := KeepGreens(g, w, h, comps[k]);
      KeepNext(g, w, h, comps, k, result, kept);
      result := result + kept;
      k := k + 1;
    }
    forall p ensures p in result <==> Connected(g, w, h, p) {
      KeptExactly(g, w, h, comps, result, p);
    }
  }

  /** After all components, a cell is kept exactly when it is connected. */
  lemma KeptExactly(g: seq<seq<Pixel>>, w: nat, h: nat, comps: seq<seq<Point>>, result: seq<Point>, p: Point)
    requires Partition(g, w, h, GreenOrRed, comps)
    requires KeptSoFar(g, w, h, comps, |comps|, result)
    ensures p in result <==> Connected(g, w, h, p)
  {
    if Member(g, w, h, IsGreen, p) {
      assert Member(g, w, h, GreenOrRed, p);
      var j :| 0 <= j < |comps| && p in comps[j];
      KeptIsConnected(g, w, h, comps[j], p);
      if p in result {
        var i :| 0 <= i < |comps| && p in comps[i] && Member(g, w, h, IsGreen, p) && TwoGreens(g, w, h, comps[i]);
        if i < j {
          assert false;
        } else if j < i {
          assert false;
        }
      }
    }
  }

  // The four worked examples of `main`: squares are pure green (0, 255, 0), pure red
  // (255, 0, 0) or pure blue (0, 0, 255); only the grid size and the squares are set.

  const Green := Pixel(0, 255, 0)
  const Red := Pixel(255, 0, 0)
  const Blue := Pixel(0, 0, 255)

  function Squares(w: int, h: int, squares: seq<seq<Pixel>>): CompressedImage {
    CompressedImage(0, 0, 0, w, h, squares)
  }

  /** The three-cell path p, via, q of green or red cells joins p to q. */
  lemma Via(g: seq<seq<Pixel>>, w: nat, h: nat, p: Point, via: Point, q: Point)
    requires Member(g, w, h, GreenOrRed, p) && Member(g, w, h, GreenOrRed, via) && Member(g, w, h, GreenOrRed, q)
    requires Adjacent(p, via) && Adjacent(via, q)
    ensures Joined(g, w, h, GreenOrRed, p, q)
  {
    var c := [p, via, q];
    assert IsPath(g, w, h, GreenOrRed, c) && c[0] == p && c[|c| - 1] == q;
  }

  const Grid1 := [[Green, Red, Green]]
  const Grid4 := [[Green, Red, Green], [Red, Green, Red]]

  lemma Greens1(p: Point)
    requires Member(Grid1, 3, 1, IsGreen, p)
    ensures p == Point(0, 0) || p == Point(2, 0)
  {
  }

  lemma Connected1()
    ensures Connected(Grid1, 3, 1, Point(0, 0)) && Connected(Grid1, 3, 1, Point(2, 0))
  {
    var a, b := Point(0, 0), Point(2, 0);
    Via(Grid1, 3, 1, a, Point(1, 0), b);
    Via(Grid1, 3, 1, b, Point(1, 0), a);
    assert Member(Grid1, 3, 1, IsGreen, a) && Member(Grid1, 3, 1, IsGreen, b);
  }

  lemma Greens4(p: Point)
    requires Member(Grid4, 3, 2, IsGreen, p)
    ensures p == Point(0, 0) || p == Point(2, 0) || p == Point(1, 1)
  {
    assert p.y == 0 || p.y == 1;
    assert p.x == 0 || p.x == 1 || p.x == 2;
  }

  lemma Connected4()
    ensures Connected(Grid4, 3, 2, Point(0, 0)) && Connected(Grid4, 3, 2, Point(2, 0)) && Connected(Grid4, 3, 2, Point(1, 1))
  {
    var a, b, c, r := Point(0, 0), Point(2, 0), Point(1, 1), Point(1, 0);
    assert Member(Grid4, 3, 2, IsGreen, a) && Member(Grid4, 3, 2, IsGreen, b) && Member(Grid4, 3, 2, IsGreen, c);
    assert Member(Grid4, 3, 2, GreenOrRed, r);
    Via(Grid4, 3, 2, a, r, b);
    Via(Grid4, 3, 2, b, r, a);
    Via(Grid4, 3, 2, c, r, a);
  }

  /** With a single green cell, no cell is connected to another green cell. */
  lemma Lonely(g: seq<seq<Pixel>>, w: nat, h: nat, only: Point, p: Point)
    requires forall q :: Member(g, w, h, IsGreen, q) ==> q == only
    ensures !Connected(g, w, h, p)
  {
  }

  /** Two green squares joined by a red one: both are found. */
  method Example1() returns (found: int)
    ensures found == 2
  {
    var res := FindConnectedGreenSquares(Squares(3, 1, Grid1));
    Connected1();
    forall p | p in res ensures p == Point(0, 0) || p == Point(2, 0) {
      Greens1(p);
    }
    assert Elems(res) == {Point(0, 0), Point(2, 0)};
    NoDupsCard(res);
    found := |res|;
  }

  /** A green square beside a blue one: nothing is found. */
  method Example2() returns (found: int)
    ensures found == 0
  {
    var g := [[Green, Blue]];
    var res := FindConnectedGreenSquares(Squares(2, 1, g));
    forall q | Member(g, 2, 1, IsGreen, q) ensures q == Point(0, 0) {
      assert q.x == 0 || q.x == 1;
    }
    if |res| > 0 {
      Lonely(g, 2, 1, Point(0, 0), res[0]);
    }
    found := |res|;
  }

  /** A green square beside a red one: a single green square is not enough. */
  method Example3() returns (found: int)
    ensures found == 0
  {
    var g := [[Green, Red]];
    var res := FindConnectedGreenSquares(Squares(2, 1, g));
    forall q | Member(g, 2, 1, IsGreen, q) ensures q == Point(0, 0) {
      assert q.x == 0 || q.x == 1;
    }
    if |res| > 0 {
      Lonely(g, 2, 1, Point(0, 0), res[0]);
    }
    found := |res|;
  }

  /** G R G over R G R: all three green squares are found. */
  method Example4() returns (found: int)
    ensures found == 3
  {
    var res := FindConnectedGreenSquares(Squares(3, 2, Grid4));
    Connected4();
    forall p | p in res ensures p == Point(0, 0) || p == Point(2, 0) || p == Point(1, 1) {
      Greens4(p);
    }
    assert Elems(res) == {Point(0, 0), Point(2, 0), Point(1, 1)};
    NoDupsCard(res);
    found := |res|;
  }

  // The connectivity graph.

  /** Go's integer division by 2, which truncates toward zero. */
  function Half(a: int): (r: int)
    ensures a >= 0 ==> 0 <= a - 2 * r <= 1
    ensures a < 0 ==> -1 <= a - 2 * r <= 0
  {
    if a >= 0 then a / 2 else -((-a) / 2)
  }

  /** The centre of a block: the midpoint of its bounding box, halved as Go divides. */
  function Centre(ps: seq<Point>): (c: Point)
    requires |ps| > 0
    ensures InBox(ps, c)
  {
    Point(Half(MinX(ps) + MaxX(ps)), Half(MinY(ps) + MaxY(ps)))
  }

  /** The running bounding box kept while a block is flooded, starting from its first cell. */
  method Bounds(ps: seq<Point>) returns (minX: int, minY: int, maxX: int, maxY: int)
    requires |ps| > 0
    ensures minX == MinX(ps) && minY == MinY(ps) && maxX == MaxX(ps) && maxY == MaxY(ps)
  {
    minX, minY := ps[0].x, ps[0].y;
    maxX, maxY := ps[0].x, ps[0].y;
    var i := 0;
    while i < |ps|
      invariant 0 <= i <= |ps|
      invariant forall k :: 0 <= k < i ==> minX <= ps[k].x <= maxX && minY <= ps[k].y <= maxY
      invariant exists k :: 0 <= k < |ps| && ps[k].x == minX
      invariant exists k :: 0 <= k < |ps| && ps[k].x == maxX
      invariant exists k :: 0 <= k < |ps| && ps[k].y == minY
      invariant exists k :: 0 <= k < |ps| && ps[k].y == maxY
    {
      var curr := ps[i];
      if curr.x < minX { minX := curr.x; }
      if curr.y < minY { minY := curr.y; }
      if curr.x > maxX { maxX := curr.x; }
      if curr.y > maxY { maxY := curr.y; }
      i := i + 1;
    }
  }

  /** A block of the labelling before renumbering: id 0, no name, its cells and centre. */
  predicate Unnamed(comps: seq<seq<Point>>, found: seq<Block>) {
    |found| == |comps| &&
    forall k :: 0 <= k < |comps| ==> |comps[k]| > 0 && found[k] == Block(0, "", comps[k], Centre(comps[k]))
  }

  method MakeBlocks(comps: seq<seq<Point>>) returns (found: seq<Block>)
    requires forall k :: 0 <= k < |comps| ==> |comps[k]| > 0
    ensures Unnamed(comps, found)
  {
    found := [];
    var k := 0;
    while k < |comps|
      invariant 0 <= k <= |comps| && |found| == k
      invariant forall j :: 0 <= j < k ==> found[j] == Block(0, "", comps[j], Centre(comps[j]))
    {
      var minX, minY, maxX, maxY := Bounds(comps[k]);
      found := found + [Block(0, "", comps[k], Point(Half(minX + maxX), Half(minY + maxY)))];
      k := k + 1;
    }
  }

  /** Each block keeps the centre of its own cells through sorting and renaming. */
  lemma CentresKept(comps: seq<seq<Point>>, found: seq<Block>, blocks: seq<Block>)
    requires Unnamed(comps, found) && Renumbered(SortByCentre(found), blocks)
    ensures forall i :: 0 <= i < |blocks| ==> |blocks[i].points| > 0 && blocks[i].center == Centre(blocks[i].points)
  {
    var sorted := SortByCentre(found);
    SortByCentrePermutes(found);
    forall i | 0 <= i < |blocks| ensures |blocks[i].points| > 0 && blocks[i].center == Centre(blocks[i].points) {
      assert sorted[i] in multiset(found);
    }
  }

  /** GenerateConnectivityGraph: label the green blocks, sort them by centre, name them,
      and record for each block the later blocks a red corridor leads to. The blocks come
      back beside the graph; from block 702 on naming fails. */
  method GenerateConnectivityGraph(img: CompressedImage) returns (r: Result<seq<GraphNode>>, blocks: seq<Block>)
    requires WellFormed(img)
    ensures FoundBlocks(img.squares, Width(img), Height(img), IsGreen, blocks)
    ensures forall i :: 0 <= i < |blocks| ==> |blocks[i].points| > 0 && blocks[i].center == Centre(blocks[i].points)
    ensures CentreSorted(blocks)
    ensures r.Ok? <==> |blocks| <= 702
    ensures r.Err? ==> r.error == IndexOutOfRange
    ensures r.Ok? ==> Numbered(blocks) && Records(blocks, r.value) &&
                      Wired(img.squares, Width(img), Height(img), IsRed, blocks, r.value)
  {
    var g, w, h := img.squares, Width(img), Height(img);
    var comps := Scan(g, w, h, IsGreen);
    var found := MakeBlocks(comps);
    assert Parts(found) == comps;
    r, blocks := Connect(g, w, h, IsGreen, IsRed, found);
    CentresKept(comps, found, blocks);
    SortByCentreSorted(found);
    RenumberedSorted(SortByCentre(found), blocks);
  }
}
