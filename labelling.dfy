/** Connected-component labelling as both programs do it: scan the grid in
    row-major order (y outer, x inner) and flood every unvisited cell of the
    class into a new component. This module states what the scan produces and
    proves one lemma per step of the scan loop. */
module Labelling {
  import opened Grid
  import opened Flood

  /** Each listed component is a connected component of class `cls`. */
  ghost predicate AllComponents(g: seq<seq<Pixel>>, w: nat, h: nat, cls: Pixel -> bool, comps: seq<seq<Point>>) {
    forall k :: 0 <= k < |comps| ==> IsComponent(g, w, h, cls, comps[k])
  }

  /** No cell lies in two of the components. */
  ghost predicate Disjoint(comps: seq<seq<Point>>) {
    forall k, l, q :: 0 <= k < l < |comps| && q in comps[k] ==> q !in comps[l]
  }

  /** `visited` is exactly the union of the components. */
  ghost predicate Covers(comps: seq<seq<Point>>, visited: set<Point>) {
    forall q :: q in visited <==> exists k :: 0 <= k < |comps| && q in comps[k]
  }

  /** The components partition the cells of class `cls`: each is a connected component,
      no cell lies in two of them, and every cell of the class lies in one. */
  ghost predicate Partition(g: seq<seq<Pixel>>, w: nat, h: nat, cls: Pixel -> bool, comps: seq<seq<Point>>) {
    && AllComponents(g, w, h, cls, comps)
    && Disjoint(comps)
    && (forall q :: Member(g, w, h, cls, q) ==> exists k :: 0 <= k < |comps| && q in comps[k])
  }

  /** Components are listed in the order the scan discovers them: each starts at its
      first cell in reading order, and the starts are increasing in reading order. */
  ghost predicate ReadingOrder(comps: seq<seq<Point>>) {
    && (forall k :: 0 <= k < |comps| ==> |comps[k]| > 0)
    && (forall k, q :: 0 <= k < |comps| && q in comps[k] && q != comps[k][0] ==> Before(comps[k][0], q))
    && (forall k, l :: 0 <= k < l < |comps| ==> Before(comps[k][0], comps[l][0]))
  }

  /** Every cell of class `cls` before (x, y) in reading order has been visited. */
  ghost predicate VisitedBefore(g: seq<seq<Pixel>>, w: nat, h: nat, cls: Pixel -> bool,
                                visited: set<Point>, x: int, y: int) {
    forall q :: Member(g, w, h, cls, q) && Before(q, Point(x, y)) ==> q in visited
  }

  /** Every component started before (x, y) in reading order. */
  ghost predicate StartedBefore(comps: seq<seq<Point>>, x: int, y: int) {
    forall k :: 0 <= k < |comps| ==> |comps[k]| > 0 && Before(comps[k][0], Point(x, y))
  }

  /** The state of the scan when it is about to look at cell (x, y). */
  ghost predicate Scanned(g: seq<seq<Pixel>>, w: nat, h: nat, cls: Pixel -> bool,
                          comps: seq<seq<Point>>, visited: set<Point>, x: int, y: int)
  {
    && AllComponents(g, w, h, cls, comps)
    && Disjoint(comps)
    && Covers(comps, visited)
    && Closed(g, w, h, cls, visited)
    && ReadingOrder(comps)
    && VisitedBefore(g, w, h, cls, visited, x, y)
    && StartedBefore(comps, x, y)
  }

  lemma ScanStart(g: seq<seq<Pixel>>, w: nat, h: nat, cls: Pixel -> bool)
    ensures Scanned(g, w, h, cls, [], {}, 0, 0)
  {
  }

  /** Once (x, y) is visited or not of the class, the scan may move on to (x + 1, y). */
  lemma AdvanceVisited(g: seq<seq<Pixel>>, w: nat, h: nat, cls: Pixel -> bool,
                       visited: set<Point>, x: int, y: int)
    requires VisitedBefore(g, w, h, cls, visited, x, y)
    requires Point(x, y) in visited || !Member(g, w, h, cls, Point(x, y))
    ensures VisitedBefore(g, w, h, cls, visited, x + 1, y)
  {
    forall q | Member(g, w, h, cls, q) && Before(q, Point(x + 1, y)) ensures q in visited {
      if q != Point(x, y) {
        assert Before(q, Point(x, y));
      }
    }
  }

  /** A visited cell, or one not of the class, is passed over. */
  lemma ScanSkip(g: seq<seq<Pixel>>, w: nat, h: nat, cls: Pixel -> bool,
                 comps: seq<seq<Point>>, visited: set<Point>, x: int, y: int)
    requires Scanned(g, w, h, cls, comps, visited, x, y)
    requires Point(x, y) in visited || !Member(g, w, h, cls, Point(x, y))
    ensures Scanned(g, w, h, cls, comps, visited, x + 1, y)
  {
    AdvanceVisited(g, w, h, cls, visited, x, y);
  }

  lemma AddComponent(g: seq<seq<Pixel>>, w: nat, h: nat, cls: Pixel -> bool,
                     comps: seq<seq<Point>>, comp: seq<Point>)
    requires AllComponents(g, w, h, cls, comps)
    requires IsComponent(g, w, h, cls, comp)
    ensures AllComponents(g, w, h, cls, comps + [comp])
  {
    var cs := comps + [comp];
    forall k | 0 <= k < |cs| ensures IsComponent(g, w, h, cls, cs[k]) {
      if k < |comps| {
        assert cs[k] == comps[k];
      }
    }
  }

  /** Appending a component disjoint from the visited cells keeps the components disjoint. */
  lemma AddDisjoint(comps: seq<seq<Point>>, visited: set<Point>, comp: seq<Point>)
    requires Covers(comps, visited) && Disjoint(comps)
    requires forall q :: q in comp ==> q !in visited
    ensures Disjoint(comps + [comp])
  {
    var cs := comps + [comp];
    forall k, l, q | 0 <= k < l < |cs| && q in cs[k] ensures q !in cs[l] {
      assert cs[k] == comps[k];
      if l == |comps| {
        assert q in visited;
      } else {
        assert cs[l] == comps[l];
      }
    }
  }

  /** The visited set grows by exactly the cells of the appended component. */
  lemma AddCovers(comps: seq<seq<Point>>, visited: set<Point>, comp: seq<Point>, visited': set<Point>)
    requires Covers(comps, visited)
    requires visited' == visited + Elems(comp)
    ensures Covers(comps + [comp], visited')
  {
    var cs := comps + [comp];
    forall q ensures q in visited' <==> exists k :: 0 <= k < |cs| && q in cs[k] {
      if q in visited {
        var k :| 0 <= k < |comps| && q in comps[k];
        assert cs[k] == comps[k];
      }
      if q in comp {
        assert cs[|comps|] == comp;
      }
      if exists k :: 0 <= k < |cs| && q in cs[k] {
        var k :| 0 <= k < |cs| && q in cs[k];
        if k < |comps| {
          assert cs[k] == comps[k];
        }
      }
    }
  }

  /** A component of unvisited cells flooded from (x, y) extends the reading order:
      all class cells before (x, y) were visited, so its other cells come after (x, y). */
  lemma AddOrdered(g: seq<seq<Pixel>>, w: nat, h: nat, cls: Pixel -> bool,
                   comps: seq<seq<Point>>, visited: set<Point>, x: int, y: int, comp: seq<Point>)
    requires ReadingOrder(comps) && StartedBefore(comps, x, y)
    requires VisitedBefore(g, w, h, cls, visited, x, y)
    requires |comp| > 0 && comp[0] == Point(x, y) && AllMembers(g, w, h, cls, comp)
    requires forall q :: q in comp ==> q !in visited
    ensures ReadingOrder(comps + [comp])
  {
    var cs := comps + [comp];
    forall k, q | 0 <= k < |cs| && q in cs[k] && q != cs[k][0] ensures Before(cs[k][0], q) {
      if k < |comps| {
        assert cs[k] == comps[k];
      } else {
        var i :| 0 <= i < |comp| && comp[i] == q;
        assert Member(g, w, h, cls, comp[i]);
      }
    }
    forall k, l | 0 <= k < l < |cs| ensures Before(cs[k][0], cs[l][0]) {
      assert cs[k] == comps[k];
      if l < |comps| {
        assert cs[l] == comps[l];
      }
    }
  }

  /** After appending the component started at (x, y), all starts precede (x + 1, y). */
  lemma AddStarted(comps: seq<seq<Point>>, x: int, y: int, comp: seq<Point>)
    requires StartedBefore(comps, x, y)
    requires |comp| > 0 && comp[0] == Point(x, y)
    ensures StartedBefore(comps + [comp], x + 1, y)
  {
    var cs := comps + [comp];
    forall k | 0 <= k < |cs| ensures |cs[k]| > 0 && Before(cs[k][0], Point(x + 1, y)) {
      if k < |comps| {
        assert cs[k] == comps[k];
      }
    }
  }

  /** Flooding from the unvisited cell (x, y) adds one component, the one that contains (x, y). */
  lemma ScanFlood(g: seq<seq<Pixel>>, w: nat, h: nat, cls: Pixel -> bool,
                  comps: seq<seq<Point>>, visited: set<Point>, x: int, y: int,
                  comp: seq<Point>, visited': set<Point>)
    requires Scanned(g, w, h, cls, comps, visited, x, y)
    requires IsComponent(g, w, h, cls, comp) && comp[0] == Point(x, y)
    requires visited' == visited + Elems(comp)
    requires forall q :: q in comp ==> q !in visited
    requires Closed(g, w, h, cls, visited')
    ensures Scanned(g, w, h, cls, comps + [comp], visited', x + 1, y)
  {
    AddComponent(g, w, h, cls, comps, comp);
    AddDisjoint(comps, visited, comp);
    AddCovers(comps, visited, comp, visited');
    AddOrdered(g, w, h, cls, comps, visited, x, y, comp);
    AddStarted(comps, x, y, comp);
    assert comp[0] in visited';
    AdvanceVisited(g, w, h, cls, visited', x, y);
  }

  /** Finishing row y is the same state as starting row y + 1. */
  lemma ScanRow(g: seq<seq<Pixel>>, w: nat, h: nat, cls: Pixel -> bool,
                comps: seq<seq<Point>>, visited: set<Point>, y: int)
    requires Scanned(g, w, h, cls, comps, visited, w, y)
    ensures Scanned(g, w, h, cls, comps, visited, 0, y + 1)
  {
    forall q | Member(g, w, h, cls, q) && Before(q, Point(0, y + 1)) ensures q in visited {
      assert Before(q, Point(w, y));
    }
  }

  /** When every row has been scanned the components partition the class. */
  lemma ScanDone(g: seq<seq<Pixel>>, w: nat, h: nat, cls: Pixel -> bool,
                 comps: seq<seq<Point>>, visited: set<Point>)
    requires Scanned(g, w, h, cls, comps, visited, 0, h)
    ensures Partition(g, w, h, cls, comps) && ReadingOrder(comps)
  {
    forall q | Member(g, w, h, cls, q) ensures exists k :: 0 <= k < |comps| && q in comps[k] {
      assert Before(q, Point(0, h));
    }
  }

  /** Every cell of the class lies in exactly one component of a partition. */
  lemma PartitionUnique(g: seq<seq<Pixel>>, w: nat, h: nat, cls: Pixel -> bool,
                        comps: seq<seq<Point>>, q: Point)
    requires Partition(g, w, h, cls, comps) && Member(g, w, h, cls, q)
    ensures exists k :: 0 <= k < |comps| && q in comps[k] &&
              forall l :: 0 <= l < |comps| && q in comps[l] ==> l == k
  {
    var k :| 0 <= k < |comps| && q in comps[k];
    assert forall l :: 0 <= l < |comps| && q in comps[l] ==> l == k;
  }

  /** The scan loop: rows top to bottom, cells left to right; every cell of class `cls`
      not yet visited starts a flood, and the flooded cells become the next component. */
  method Scan(g: seq<seq<Pixel>>, w: nat, h: nat, cls: Pixel -> bool) returns (comps: seq<seq<Point>>)
    requires Fits(g, w, h)
    ensures Partition(g, w, h, cls, comps) && ReadingOrder(comps)
  {
    var visited: set<Point> := {};
    comps := [];
    ScanStart(g, w, h, cls);
    var y := 0;
    while y < h
      invariant 0 <= y <= h
      invariant Scanned(g, w, h, cls, comps, visited, 0, y)
    {
      var x := 0;
      while x < w
        invariant 0 <= x <= w
        invariant Scanned(g, w, h, cls, comps, visited, x, y)
      {
        var p := Point(x, y);
        if p in visited || !cls(g[y][x]) {
          ScanSkip(g, w, h, cls, comps, visited, x, y);
        } else {
          var comp, visited' := Fill(g, w, h, cls, visited, p);
          ScanFlood(g, w, h, cls, comps, visited, x, y, comp, visited');
          comps, visited := comps + [comp], visited';
        }
        x := x + 1;
      }
      ScanRow(g, w, h, cls, comps, visited, y);
      y := y + 1;
    }
    ScanDone(g, w, h, cls, comps, visited);
  }
}
