/** Vocabulary shared by every stage of the glyph pipeline: pixels, grid
    coordinates, 4-adjacency, cells of a colour class, sets of cells closed
    under adjacency, discovery chains and paths. */
module Grid {

  /** One RGB sample; channels are unbounded integers (8-bit in practice). */
  datatype Pixel = Pixel(r: int, g: int, b: int)

  /** A grid coordinate; x grows to the right, y downwards. */
  datatype Point = Point(x: int, y: int)

  /** The run-time failures of the programs that the model keeps. */
  datatype Failure = DivisionByZero | IndexOutOfRange

  datatype Result<T> = Ok(value: T) | Err(error: Failure)

  /** A pixel matrix indexed [y][x] with at least h rows of at least w pixels. */
  predicate Fits(g: seq<seq<Pixel>>, w: nat, h: nat) {
    h <= |g| && forall y :: 0 <= y < h ==> w <= |g[y]|
  }

  predicate InBounds(p: Point, w: nat, h: nat) {
    0 <= p.x < w && 0 <= p.y < h
  }

  /** p is a cell of the w-by-h grid and its pixel is of class `cls`. */
  predicate Member(g: seq<seq<Pixel>>, w: nat, h: nat, cls: Pixel -> bool, p: Point) {
    InBounds(p, w, h) && p.y < |g| && p.x < |g[p.y]| && cls(g[p.y][p.x])
  }

  predicate Adjacent(p: Point, q: Point) {
    (p.x == q.x && (p.y == q.y + 1 || q.y == p.y + 1)) ||
    (p.y == q.y && (p.x == q.x + 1 || q.x == p.x + 1))
  }

  /** The four neighbours in the order both programs try them:
      (0,1), (0,-1), (1,0), (-1,0). */
  function Neighbours(p: Point): (ns: seq<Point>)
    ensures |ns| == 4
    ensures forall q :: q in ns <==> Adjacent(p, q)
  {
    [Point(p.x, p.y + 1), Point(p.x, p.y - 1), Point(p.x + 1, p.y), Point(p.x - 1, p.y)]
  }

  /** Row-major ("reading") order on points: strictly earlier row, or same row and further left. */
  predicate Before(p: Point, q: Point) {
    p.y < q.y || (p.y == q.y && p.x < q.x)
  }

  /** All cells of the w-by-h grid. */
  function Cells(w: nat, h: nat): set<Point> {
    set x, y | 0 <= x < w && 0 <= y < h :: Point(x, y)
  }

  lemma InCells(p: Point, w: nat, h: nat)
    requires InBounds(p, w, h)
    ensures p in Cells(w, h)
  {
    assert p == Point(p.x, p.y);
  }

  /** Some element of a non-empty set, in whatever order the program's set iteration yields. */
  method Pick<T>(s: set<T>) returns (x: T)
    requires s != {}
    ensures x in s
  {
    x :| x in s;
  }

  function Elems<T>(s: seq<T>): set<T> {
    set x | x in s
  }

  predicate NoDups<T(==)>(s: seq<T>) {
    forall i, j :: 0 <= i < j < |s| ==> s[i] != s[j]
  }

  ghost predicate AllMembers(g: seq<seq<Pixel>>, w: nat, h: nat, cls: Pixel -> bool, c: seq<Point>) {
    forall i :: 0 <= i < |c| ==> Member(g, w, h, cls, c[i])
  }

  /** No step to an adjacent cell of class `cls` leaves s. */
  ghost predicate Closed(g: seq<seq<Pixel>>, w: nat, h: nat, cls: Pixel -> bool, s: set<Point>) {
    forall p, q :: p in s && Adjacent(p, q) && Member(g, w, h, cls, q) ==> q in s
  }

  /** Every element of c is a seed or is adjacent to an element discovered before it
      (the order in which a breadth-first search discovers cells). */
  ghost predicate Chained(seeds: set<Point>, c: seq<Point>) {
    forall i {:trigger HasParent(c, i)} :: 0 <= i < |c| ==> c[i] in seeds || HasParent(c, i)
  }

  /** c[i] is adjacent to some cell listed before it. */
  ghost predicate HasParent(c: seq<Point>, i: int) {
    0 <= i < |c| && exists j :: 0 <= j < i && Adjacent(c[j], c[i])
  }

  /** A non-empty walk through adjacent cells of class `cls`. */
  ghost predicate IsPath(g: seq<seq<Pixel>>, w: nat, h: nat, cls: Pixel -> bool, c: seq<Point>) {
    |c| > 0 && AllMembers(g, w, h, cls, c) &&
    forall i :: 0 <= i < |c| - 1 ==> Adjacent(c[i], c[i + 1])
  }

  /** p and q are joined by a walk through cells of class `cls`. */
  ghost predicate Joined(g: seq<seq<Pixel>>, w: nat, h: nat, cls: Pixel -> bool, p: Point, q: Point) {
    exists c :: IsPath(g, w, h, cls, c) && c[0] == p && c[|c| - 1] == q
  }

  /** A connected component of class `cls`: listed without repetition, in an order in
      which each cell touches an earlier one, and closed under adjacency. */
  ghost predicate IsComponent(g: seq<seq<Pixel>>, w: nat, h: nat, cls: Pixel -> bool, c: seq<Point>) {
    |c| > 0 && NoDups(c) && AllMembers(g, w, h, cls, c) &&
    Chained({c[0]}, c) && Closed(g, w, h, cls, Elems(c))
  }

  /** Walking back from c[i] through earlier adjacent cells reaches a seed:
      a path from a seed to c[i]. */
  ghost function ParentPath(g: seq<seq<Pixel>>, w: nat, h: nat, cls: Pixel -> bool,
                            seeds: set<Point>, c: seq<Point>, i: nat): (p: seq<Point>)
    requires i < |c| && Chained(seeds, c) && AllMembers(g, w, h, cls, c)
    ensures IsPath(g, w, h, cls, p) && p[0] in seeds && p[|p| - 1] == c[i]
    decreases i
  {
    assert c[i] in seeds || HasParent(c, i);
    if c[i] in seeds then [c[i]]
    else
      var j :| 0 <= j < i && Adjacent(c[j], c[i]);
      var head := ParentPath(g, w, h, cls, seeds, c, j);
      assert Member(g, w, h, cls, c[i]);
      head + [c[i]]
  }

  /** A closed set that contains the start of a path contains the whole path. */
  lemma {:induction false} PathInClosed(g: seq<seq<Pixel>>, w: nat, h: nat, cls: Pixel -> bool,
                                        s: set<Point>, c: seq<Point>)
    requires IsPath(g, w, h, cls, c) && c[0] in s && Closed(g, w, h, cls, s)
    ensures forall k :: 0 <= k < |c| ==> c[k] in s
  {
    if |c| > 1 {
      var front := c[..|c| - 1];
      assert IsPath(g, w, h, cls, front);
      PathInClosed(g, w, h, cls, s, front);
      assert c[|c| - 2] == front[|front| - 1];
      assert Member(g, w, h, cls, c[|c| - 1]);
    }
  }

  /** A closed set that contains all seeds contains every cell chained from them:
      a breadth-first search never leaves the component it starts in. */
  lemma {:induction false} ChainInClosed(g: seq<seq<Pixel>>, w: nat, h: nat, cls: Pixel -> bool,
                                         s: set<Point>, seeds: set<Point>, c: seq<Point>, i: nat)
    requires i < |c| && Chained(seeds, c) && AllMembers(g, w, h, cls, c)
    requires seeds <= s && Closed(g, w, h, cls, s)
    ensures c[i] in s
    decreases i
  {
    assert c[i] in seeds || HasParent(c, i);
    if c[i] !in seeds {
      var j :| 0 <= j < i && Adjacent(c[j], c[i]);
      ChainInClosed(g, w, h, cls, s, seeds, c, j);
      assert Member(g, w, h, cls, c[i]);
    }
  }

  function Reverse<T>(s: seq<T>): (r: seq<T>)
    ensures |r| == |s| && forall i :: 0 <= i < |s| ==> r[i] == s[|s| - 1 - i]
  {
    if s == [] then [] else Reverse(s[1..]) + [s[0]]
  }

  /** A path walked backwards is a path. */
  lemma ReversePath(g: seq<seq<Pixel>>, w: nat, h: nat, cls: Pixel -> bool, c: seq<Point>)
    requires IsPath(g, w, h, cls, c)
    ensures IsPath(g, w, h, cls, Reverse(c))
  {
    var r := Reverse(c);
    forall i | 0 <= i < |r| - 1 ensures Adjacent(r[i], r[i + 1]) {
      assert r[i] == c[|c| - 1 - i] && r[i + 1] == c[|c| - 2 - i];
      assert Adjacent(c[|c| - 2 - i], c[|c| - 1 - i]);
    }
  }

  lemma JoinedSymmetric(g: seq<seq<Pixel>>, w: nat, h: nat, cls: Pixel -> bool, p: Point, q: Point)
    requires Joined(g, w, h, cls, p, q)
    ensures Joined(g, w, h, cls, q, p)
  {
    var c :| IsPath(g, w, h, cls, c) && c[0] == p && c[|c| - 1] == q;
    ReversePath(g, w, h, cls, c);
    var r := Reverse(c);
    assert r[0] == q && r[|r| - 1] == p;
  }

  lemma JoinedTransitive(g: seq<seq<Pixel>>, w: nat, h: nat, cls: Pixel -> bool, p: Point, q: Point, u: Point)
    requires Joined(g, w, h, cls, p, q) && Joined(g, w, h, cls, q, u)
    ensures Joined(g, w, h, cls, p, u)
  {
    var c :| IsPath(g, w, h, cls, c) && c[0] == p && c[|c| - 1] == q;
    var d :| IsPath(g, w, h, cls, d) && d[0] == q && d[|d| - 1] == u;
    var e := c + d[1..];
    assert forall i :: 0 <= i < |e| - 1 ==> Adjacent(e[i], e[i + 1]) by {
      forall i | 0 <= i < |e| - 1 ensures Adjacent(e[i], e[i + 1]) {
        if i < |c| - 1 {
          assert e[i] == c[i] && e[i + 1] == c[i + 1];
        } else {
          var k := i - (|c| - 1);
          assert e[i] == d[k] && e[i + 1] == d[k + 1];
        }
      }
    }
    assert e[|e| - 1] == u;
    assert IsPath(g, w, h, cls, e);
  }

  /** The cells of a component are exactly the cells joined to its first cell. */
  lemma ComponentIsJoined(g: seq<seq<Pixel>>, w: nat, h: nat, cls: Pixel -> bool, c: seq<Point>, q: Point)
    requires IsComponent(g, w, h, cls, c)
    ensures q in c <==> Joined(g, w, h, cls, c[0], q)
  {
    if q in c {
      var i :| 0 <= i < |c| && c[i] == q;
      var p := ParentPath(g, w, h, cls, {c[0]}, c, i);
    }
    if Joined(g, w, h, cls, c[0], q) {
      var p :| IsPath(g, w, h, cls, p) && p[0] == c[0] && p[|p| - 1] == q;
      PathInClosed(g, w, h, cls, Elems(c), p);
    }
  }

  /** A value listed at two positions occurs at least twice. */
  lemma MultisetTwice<T>(r: seq<T>, i: int, j: int)
    requires 0 <= i < j < |r| && r[i] == r[j]
    ensures multiset(r)[r[i]] >= 2
  {
    assert r == r[..i] + [r[i]] + r[i + 1..j] + [r[j]] + r[j + 1..];
  }

  /** A list without repetition holds each value at most once. */
  lemma {:induction false} NoDupsMultiset<T>(s: seq<T>, x: T)
    requires NoDups(s)
    ensures multiset(s)[x] <= 1
  {
    if s != [] {
      assert s == [s[0]] + s[1..];
      NoDupsMultiset(s[1..], x);
      if s[0] == x {
        assert x !in s[1..];
      }
    }
  }

  /** A list without repetition has as many elements as it has distinct values. */
  lemma {:induction false} NoDupsCard<T>(s: seq<T>)
    requires NoDups(s)
    ensures |Elems(s)| == |s|
  {
    if s != [] {
      var t := s[..|s| - 1];
      NoDupsCard(t);
      assert Elems(s) == Elems(t) + {s[|s| - 1]};
      assert s[|s| - 1] !in Elems(t);
    }
  }
}
