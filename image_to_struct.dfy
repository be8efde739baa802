/** The converter (image_to_struct.py): prints a Go source file that defines
    `GeneratedImage`, a CompressedImage literal holding the pixel read at the centre of
    every square. The printed lines are the result here. */
module ImageToStruct {
  import opened Grid
  import opened Text
  import opened Sampling
  import GoGlyphs

  /** The lines before the squares: the recorded sizes, as printed, possibly negative. */
  function Header(width: int, height: int, squareSize: int, gridW: int, gridH: int): (lines: seq<string>)
    ensures |lines| == 9
  {
    [ "package main",
      "",
      "var GeneratedImage = CompressedImage{",
      "\tOriginalWidth:  " + Decimal(width) + ",",
      "\tOriginalHeight: " + Decimal(height) + ",",
      "\tSquareSize:     " + Decimal(squareSize) + ",",
      "\tGridWidth:      " + Decimal(gridW) + ",",
      "\tGridHeight:     " + Decimal(gridH) + ",",
      "\tSquares: [][]Pixel{" ]
  }

  const Footer: seq<string> := ["\t},", "}"]

  /** A number followed by the text after it. */
  function Field(n: int, rest: string): string {
    Decimal(n) + rest
  }

  /** One square, as a Go composite literal of its three channels. */
  function Entry(p: Pixel): string {
    "\t\t\t{R: " + Field(p.r, ", G: " + Field(p.g, ", B: " + Field(p.b, "},")))
  }

  function Drop(s: string, n: nat): string {
    if |s| >= n then s[n..] else []
  }

  /** Reads the three channels back from an entry line. */
  function ParseEntry(line: string): Pixel {
    var (r, s1) := TakeNumber(Drop(line, 7));
    var (g, s2) := TakeNumber(Drop(s1, 5));
    var (b, _) := TakeNumber(Drop(s2, 5));
    Pixel(ParseInt(r), ParseInt(g), ParseInt(b))
  }

  /** A field splits off its number, and the five-character separator after it drops off. */
  lemma ReadField(n: int, sep: string, rest: string)
    requires |sep| == 5 && sep[0] == ','
    ensures TakeNumber(Field(n, sep + rest)) == (Decimal(n), sep + rest)
    ensures Drop(sep + rest, 5) == rest
    ensures ParseInt(Decimal(n)) == n
  {
    TakeDecimal(n, sep + rest);
    DecimalRoundTrip(n);
    assert (sep + rest)[5..] == rest;
  }

  /** A line of the shape of an entry, with any seven-character prefix and any
      separators of the entry's lengths, reads back as its three numbers. */
  lemma ReadEntry(pre: string, s1: string, s2: string, tail: string, p: Pixel)
    requires |pre| == 7 && |s1| == 5 && |s2| == 5 && s1[0] == ',' && s2[0] == ','
    requires |tail| == 0 || !NumberChar(tail[0])
    ensures ParseEntry(pre + Field(p.r, s1 + Field(p.g, s2 + Field(p.b, tail)))) == p
  {
    var c := Field(p.b, tail);
    var b := Field(p.g, s2 + c);
    var a := Field(p.r, s1 + b);
    assert (pre + a)[7..] == a;
    ReadField(p.r, s1, b);
    ReadField(p.g, s2, c);
    TakeDecimal(p.b, tail);
    DecimalRoundTrip(p.b);
  }

  /** Every entry line reads back as the pixel it was printed from. */
  lemma EntryRoundTrip(p: Pixel)
    ensures ParseEntry(Entry(p)) == p
  {
    ReadEntry("\t\t\t{R: ", ", G: ", ", B: ", "},", p);
  }

  /** f applied to each element, in order. */
  function Map<A, B>(f: A -> B, s: seq<A>): (r: seq<B>)
    ensures |r| == |s|
  {
    if s == [] then [] else Map(f, s[..|s| - 1]) + [f(s[|s| - 1])]
  }

  /** Mapping with a left inverse of f undoes the mapping with f. */
  lemma {:induction false} MapInverse<A, B>(f: A -> B, g: B -> A, s: seq<A>)
    requires forall x :: g(f(x)) == x
    ensures Map(g, Map(f, s)) == s
  {
    if s != [] {
      var m := Map(f, s);
      assert m[..|m| - 1] == Map(f, s[..|s| - 1]);
      MapInverse(f, g, s[..|s| - 1]);
      assert s == s[..|s| - 1] + [s[|s| - 1]];
    }
  }

  /** The entry lines of a row of squares. */
  function Entries(row: seq<Pixel>): (lines: seq<string>)
    ensures |lines| == |row|
  {
    Map(Entry, row)
  }

  /** The lines printed for one row: an opening brace, its entries, a closing brace. */
  function RowLines(row: seq<Pixel>): (lines: seq<string>)
    ensures |lines| == |row| + 2
  {
    ["\t\t{"] + Entries(row) + ["\t\t},"]
  }

  /** The lines printed for the rows, one row after another. */
  function Body(rows: seq<seq<Pixel>>): seq<string> {
    if rows == [] then [] else Body(rows[..|rows| - 1]) + RowLines(rows[|rows| - 1])
  }

  /** The whole printed file. */
  function Source(pixels: seq<seq<Pixel>>, width: nat, height: nat, squareSize: int): seq<string>
    requires Fits(pixels, width, height) && squareSize != 0
  {
    var gw, gh := FloorDiv(width, squareSize), FloorDiv(height, squareSize);
    Header(width, height, squareSize, gw, gh) +
    (if squareSize > 0 then Body(SampledGrid(pixels, width, height, squareSize)) else []) +
    Footer
  }

  /** The lines printed for grid row y: the loop over its squares. */
  method PrintRow(pixels: seq<seq<Pixel>>, width: nat, height: nat, squareSize: int, y: int) returns (row: seq<string>)
    requires Fits(pixels, width, height) && squareSize > 0 && 0 <= y < FloorDiv(height, squareSize)
    ensures row == RowLines(SampledGrid(pixels, width, height, squareSize)[y])
  {
    ghost var squares := SampledGrid(pixels, width, height, squareSize)[y];
    var gridW := FloorDiv(width, squareSize);
    row := ["\t\t{"];
    var x := 0;
    while x < gridW
      invariant 0 <= x <= gridW
      invariant row == ["\t\t{"] + Entries(squares[..x])
    {
      var p := SamplePoint(pixels, width, height, squareSize, x, y);
      assert squares[..x + 1][..x] == squares[..x];
      row := row + [Entry(p)];
      x := x + 1;
    }
    assert squares[..x] == squares;
    row := row + ["\t\t},"];
  }

  /** A negative square size gives no rows: the quotient of a size by it is at most 0. */
  lemma NoRows(size: nat, squareSize: int)
    requires squareSize < 0
    ensures FloorDiv(size, squareSize) <= 0
  {
  }

  /** One more row of the grid prints one more row of lines. */
  lemma BodySnoc(rows: seq<seq<Pixel>>, k: int)
    requires 0 <= k < |rows|
    ensures Body(rows[..k + 1]) == Body(rows[..k]) + RowLines(rows[k])
  {
    assert rows[..k + 1][..k] == rows[..k];
  }

  /** The loop over the grid rows; a negative square size gives no rows. */
  method PrintRows(pixels: seq<seq<Pixel>>, width: nat, height: nat, squareSize: int) returns (body: seq<string>)
    requires Fits(pixels, width, height) && squareSize != 0
    ensures body == if squareSize > 0 then Body(SampledGrid(pixels, width, height, squareSize)) else []
  {
    var gridH := FloorDiv(height, squareSize);
    body := [];
    if squareSize < 0 {
      NoRows(height, squareSize);
      return;
    }
    ghost var grid := SampledGrid(pixels, width, height, squareSize);
    var y := 0;
    while y < gridH
      invariant 0 <= y <= |grid| == gridH
      invariant body == Body(grid[..y])
    {
      var row := PrintRow(pixels, width, height, squareSize, y);
      BodySnoc(grid, y);
      body := body + row;
      y := y + 1;
    }
    assert grid[..y] == grid;
  }

  /** convert_image on an image already loaded: the printed lines; a square size of zero
      fails on the division. */
  method ConvertImage(pixels: seq<seq<Pixel>>, width: nat, height: nat, squareSize: int) returns (r: Result<seq<string>>)
    requires Fits(pixels, width, height)
    ensures r.Err? <==> squareSize == 0
    ensures r.Err? ==> r.error == DivisionByZero
    ensures r.Ok? ==> r.value == Source(pixels, width, height, squareSize)
  {
    if squareSize == 0 {
      return Err(DivisionByZero);
    }
    var gridW, gridH := FloorDiv(width, squareSize), FloorDiv(height, squareSize);
    var lines := Header(width, height, squareSize, gridW, gridH);
    var body := PrintRows(pixels, width, height, squareSize);
    lines := lines + body + Footer;
    r := Ok(lines);
  }

  // Reading the printed file back.

  /** The number after the 17-character label of a header line. */
  function HeaderValue(line: string): int {
    ParseInt(TakeNumber(Drop(line, 17)).0)
  }

  lemma HeaderRoundTrip(tag: string, n: int)
    requires |tag| == 17
    ensures HeaderValue(tag + Decimal(n) + ",") == n
  {
    ReadHeader(tag, Decimal(n), ",");
    TakeDecimal(n, ",");
    DecimalRoundTrip(n);
  }

  /** The text after a 17-character label. */
  lemma ReadHeader(tag: string, d: string, tail: string)
    requires |tag| == 17
    ensures Drop(tag + d + tail, 17) == d + tail
  {
    assert (tag + d + tail)[17..] == d + tail;
  }

  /** The squares of a row from its entry lines. */
  function ReadRow(lines: seq<string>): (row: seq<Pixel>)
    ensures |row| == |lines|
  {
    Map(ParseEntry, lines)
  }

  /** The last n blocks of gw + 2 lines, each read from the gw lines inside its first and
      last line. */
  function Chunks<L, T>(lines: seq<L>, gw: nat, n: nat, read: seq<L> -> T): seq<T> {
    if n == 0 || |lines| < gw + 2 then []
    else
      var k := |lines| - (gw + 2);
      Chunks(lines[..k], gw, n - 1, read) + [read(lines[k + 1..|lines| - 1])]
  }

  /** n rows of the square lines, each row gw + 2 lines: its entries between the braces. */
  function ReadRows(lines: seq<string>, gw: nat, n: nat): seq<seq<Pixel>> {
    Chunks(lines, gw, n, ReadRow)
  }

  /** The CompressedImage a printed file defines: the header's five numbers and the
      squares between the header and the two closing lines. */
  function ReadSource(lines: seq<string>): GoGlyphs.CompressedImage
    requires |lines| >= 11
  {
    var gw, gh := HeaderValue(lines[6]), HeaderValue(lines[7]);
    GoGlyphs.CompressedImage(HeaderValue(lines[3]), HeaderValue(lines[4]), HeaderValue(lines[5]), gw, gh,
                             ReadRows(lines[9..|lines| - 2], Count(gw), Count(gh)))
  }

  /** Reading the entry lines of a row gives the row. */
  lemma ReadEntries(row: seq<Pixel>)
    ensures ReadRow(Entries(row)) == row
  {
    forall p: Pixel ensures ParseEntry(Entry(p)) == p {
      EntryRoundTrip(p);
    }
    MapInverse(Entry, ParseEntry, row);
  }

  /** The two parts of a sequence extended by a bracketed middle part. */
  lemma Bracketed<T>(pre: seq<T>, open: T, mid: seq<T>, close: T)
    ensures (pre + [open] + mid + [close])[..|pre|] == pre
    ensures (pre + [open] + mid + [close])[|pre| + 1..|pre| + 1 + |mid|] == mid
  {
  }

  /** Reading gw + 2 more lines reads the gw lines between the first and the last as
      one more block. */
  lemma ChunksSnoc<L, T>(pre: seq<L>, open: L, mid: seq<L>, close: L, n: nat, read: seq<L> -> T)
    ensures Chunks(pre + [open] + mid + [close], |mid|, n + 1, read) == Chunks(pre, |mid|, n, read) + [read(mid)]
  {
    Bracketed(pre, open, mid, close);
  }

  /** Reading printed lines one row longer reads that row last. */
  lemma ReadLastRow(pre: seq<string>, row: seq<Pixel>, n: nat)
    ensures ReadRows(pre + RowLines(row), |row|, n + 1) == ReadRows(pre, |row|, n) + [row]
  {
    var open, mid, close := "\t\t{", Entries(row), "\t\t},";
    assert pre + RowLines(row) == pre + [open] + mid + [close];
    ChunksSnoc(pre, open, mid, close, n, ReadRow);
    ReadEntries(row);
  }

  /** Printed rows read back one row at a time, from the last. */
  lemma ReadBodyStep(rows: seq<seq<Pixel>>, gw: nat)
    requires rows != [] && |rows[|rows| - 1]| == gw
    ensures ReadRows(Body(rows), gw, |rows|) == ReadRows(Body(rows[..|rows| - 1]), gw, |rows| - 1) + [rows[|rows| - 1]]
  {
    var front, last := rows[..|rows| - 1], rows[|rows| - 1];
    assert Body(rows) == Body(front) + RowLines(last);
    ReadLastRow(Body(front), last, |front|);
  }

  /** A non-empty sequence is its front followed by its last element. */
  lemma Snoc<T>(s: seq<T>)
    requires |s| > 0
    ensures s[..|s| - 1] + [s[|s| - 1]] == s
  {
  }

  /** Reading printed rows of gw squares back gives the rows. */
  lemma {:induction false} ReadBody(rows: seq<seq<Pixel>>, gw: nat)
    requires forall y :: 0 <= y < |rows| ==> |rows[y]| == gw
    ensures ReadRows(Body(rows), gw, |rows|) == rows
  {
    if rows != [] {
      var front := rows[..|rows| - 1];
      assert forall y :: 0 <= y < |front| ==> front[y] == rows[y];
      ReadBody(front, gw);
      ReadBodyStep(rows, gw);
      Snoc(rows);
    }
  }

  /** The CompressedImage the printed literal defines: the recorded sizes and the sampled
      grid. Its squares cover the grid size it records, so the Go program can read every
      square. */
  function GeneratedImage(pixels: seq<seq<Pixel>>, width: nat, height: nat, squareSize: int): (img: GoGlyphs.CompressedImage)
    requires Fits(pixels, width, height) && squareSize > 0
    ensures GoGlyphs.WellFormed(img)
    ensures GoGlyphs.Width(img) == FloorDiv(width, squareSize) && GoGlyphs.Height(img) == FloorDiv(height, squareSize)
  {
    FloorDivNonNegative(width, squareSize);
    FloorDivNonNegative(height, squareSize);
    GoGlyphs.CompressedImage(width, height, squareSize, FloorDiv(width, squareSize), FloorDiv(height, squareSize),
                             SampledGrid(pixels, width, height, squareSize))
  }

  /** Reading the printed file back gives the image it was printed from. */
  lemma SourceRoundTrip(pixels: seq<seq<Pixel>>, width: nat, height: nat, squareSize: int)
    requires Fits(pixels, width, height) && squareSize > 0
    ensures |Source(pixels, width, height, squareSize)| >= 11
    ensures ReadSource(Source(pixels, width, height, squareSize)) == GeneratedImage(pixels, width, height, squareSize)
  {
    var gw, gh := FloorDiv(width, squareSize), FloorDiv(height, squareSize);
    FloorDivNonNegative(width, squareSize);
    FloorDivNonNegative(height, squareSize);
    var hd := Header(width, height, squareSize, gw, gh);
    var sg := SampledGrid(pixels, width, height, squareSize);
    var b := Body(sg);
    var src := Source(pixels, width, height, squareSize);
    assert src == hd + b + Footer;
    assert src[9..|src| - 2] == b;
    HeaderRoundTrip("\tOriginalWidth:  ", width);
    HeaderRoundTrip("\tOriginalHeight: ", height);
    HeaderRoundTrip("\tSquareSize:     ", squareSize);
    HeaderRoundTrip("\tGridWidth:      ", gw);
    HeaderRoundTrip("\tGridHeight:     ", gh);
    ReadBody(sg, gw);
  }
}
