/** The breadth-first flood fill that both programs run from a seed cell:
    a FIFO queue, a visited set shared with the surrounding scan, and the
    four neighbours tried in the order (0,1), (0,-1), (1,0), (-1,0). */
module Flood {
  import opened Grid

  /** The state of a flood from `start`: `found` lists every cell discovered so far
      (the cells already expanded followed by the queue), in discovery order. */
  ghost predicate Discovered(g: seq<seq<Pixel>>, w: nat, h: nat, cls: Pixel -> bool,
                             visited0: set<Point>, start: Point, found: seq<Point>, visited: set<Point>)
  {
    && visited == visited0 + Elems(found)
    && NoDups(found)
    && (forall q :: q in found ==> q !in visited0)
    && AllMembers(g, w, h, cls, found)
    && |found| > 0 && found[0] == start
    && Chained({start}, found)
  }

  /** Every neighbour of class `cls` of an expanded cell (other than `except`) has been marked. */
  ghost predicate Expanded(g: seq<seq<Pixel>>, w: nat, h: nat, cls: Pixel -> bool,
                           done: seq<Point>, except: set<Point>, visited: set<Point>)
  {
    forall p, q :: p in done && p !in except && Adjacent(p, q) && Member(g, w, h, cls, q) ==> q in visited
  }

  /** Marking an unvisited neighbour of the k-th discovered cell keeps the flood state. */
  lemma Discover(g: seq<seq<Pixel>>, w: nat, h: nat, cls: Pixel -> bool,
                 visited0: set<Point>, start: Point, found: seq<Point>, visited: set<Point>,
                 k: nat, next: Point)
    requires Discovered(g, w, h, cls, visited0, start, found, visited)
    requires k < |found| && Adjacent(found[k], next)
    requires Member(g, w, h, cls, next) && next !in visited
    ensures Discovered(g, w, h, cls, visited0, start, found + [next], visited + {next})
  {
    var f := found + [next];
    assert Elems(f) == Elems(found) + {next};
    forall i | 0 <= i < |f| ensures f[i] in {start} || HasParent(f, i) {
      if i < |found| {
        assert found[i] in {start} || HasParent(found, i);
        if found[i] !in {start} {
          var j :| 0 <= j < i && Adjacent(found[j], found[i]);
          assert f[j] == found[j];
        }
      } else {
        assert f[k] == found[k];
      }
    }
  }

  /** When the queue is empty the discovered cells form a closed component. */
  lemma Finish(g: seq<seq<Pixel>>, w: nat, h: nat, cls: Pixel -> bool,
               visited0: set<Point>, start: Point, component: seq<Point>, visited: set<Point>)
    requires Discovered(g, w, h, cls, visited0, start, component, visited)
    requires Expanded(g, w, h, cls, component, {}, visited)
    requires Closed(g, w, h, cls, visited0)
    ensures IsComponent(g, w, h, cls, component)
    ensures Closed(g, w, h, cls, visited)
  {
    forall p, q | p in Elems(component) && Adjacent(p, q) && Member(g, w, h, cls, q)
      ensures q in Elems(component)
    {
      assert Adjacent(q, p);
    }
  }

  /** Moving the head of the queue to the expanded cells keeps the flood state and
      takes one more grid cell out of the unexpanded ones. */
  lemma Pop(g: seq<seq<Pixel>>, w: nat, h: nat, cls: Pixel -> bool,
            visited0: set<Point>, start: Point, component: seq<Point>, queue: seq<Point>, visited: set<Point>)
    requires |queue| > 0
    requires Discovered(g, w, h, cls, visited0, start, component + queue, visited)
    requires Expanded(g, w, h, cls, component, {}, visited)
    ensures Discovered(g, w, h, cls, visited0, start, (component + [queue[0]]) + queue[1..], visited)
    ensures Expanded(g, w, h, cls, component + [queue[0]], {queue[0]}, visited)
    ensures Member(g, w, h, cls, queue[0]) && queue[0] !in component
    ensures queue[0] in Cells(w, h) - Elems(component)
    ensures Elems(component + [queue[0]]) == Elems(component) + {queue[0]}
  {
    var found := component + queue;
    assert (component + [queue[0]]) + queue[1..] == found;
    assert found[|component|] == queue[0];
    forall i | 0 <= i < |component| ensures component[i] != queue[0] {
      assert found[i] == component[i];
    }
    InCells(queue[0], w, h);
  }

  /** Tries the four neighbours of `curr`, the cell just taken from the queue, and marks
      and enqueues each one that is in the grid, unvisited and of class `cls`. */
  method ExpandCell(g: seq<seq<Pixel>>, w: nat, h: nat, cls: Pixel -> bool,
                    ghost visited0: set<Point>, ghost start: Point, ghost component: seq<Point>,
                    queue0: seq<Point>, visited0': set<Point>, curr: Point)
    returns (queue: seq<Point>, visited: set<Point>)
    requires Fits(g, w, h)
    requires Discovered(g, w, h, cls, visited0, start, component + queue0, visited0')
    requires |component| > 0 && component[|component| - 1] == curr
    requires Expanded(g, w, h, cls, component, {curr}, visited0')
    ensures Discovered(g, w, h, cls, visited0, start, component + queue, visited)
    ensures |queue| >= |queue0| && queue[..|queue0|] == queue0
    ensures Expanded(g, w, h, cls, component, {}, visited)
  {
    queue, visited := queue0, visited0';
    ghost var k := |component| - 1;
    var ns := Neighbours(curr);
    var d := 0;
    while d < 4
      invariant 0 <= d <= 4
      invariant Discovered(g, w, h, cls, visited0, start, component + queue, visited)
      invariant |queue| >= |queue0| && queue[..|queue0|] == queue0
      invariant Expanded(g, w, h, cls, component, {curr}, visited)
      invariant forall e :: 0 <= e < d && Member(g, w, h, cls, ns[e]) ==> ns[e] in visited
    {
      var next := ns[d];
      if 0 <= next.x < w && 0 <= next.y < h && next !in visited && cls(g[next.y][next.x]) {
        ghost var before := component + queue;
        assert before[k] == curr;
        Discover(g, w, h, cls, visited0, start, before, visited, k, next);
        visited := visited + {next};
        queue := queue + [next];
        assert component + queue == before + [next];
      }
      d := d + 1;
    }
    assert forall q :: Adjacent(curr, q) ==> q in ns;
  }

  /** Floods the component of class `cls` that contains `start`. `visited0` is what
      earlier floods of the same scan have marked; it is a union of whole components. */
  method Fill(g: seq<seq<Pixel>>, w: nat, h: nat, cls: Pixel -> bool,
              visited0: set<Point>, start: Point)
    returns (component: seq<Point>, visited: set<Point>)
    requires Fits(g, w, h)
    requires Member(g, w, h, cls, start) && start !in visited0
    requires Closed(g, w, h, cls, visited0)
    ensures IsComponent(g, w, h, cls, component) && component[0] == start
    ensures visited == visited0 + Elems(component)
    ensures forall q :: q in component ==> q !in visited0
    ensures Closed(g, w, h, cls, visited)
  {
    var queue := [start];
    visited := visited0 + {start};
    component := [];
    assert Elems([start]) == {start};
    while |queue| > 0
      invariant Discovered(g, w, h, cls, visited0, start, component + queue, visited)
      invariant Expanded(g, w, h, cls, component, {}, visited)
      decreases Cells(w, h) - Elems(component)
    {
      var curr := queue[0];
      Pop(g, w, h, cls, visited0, start, component, queue, visited);
      ghost var remaining := Cells(w, h) - Elems(component);
      queue := queue[1..];
      component := component + [curr];
      assert Cells(w, h) - Elems(component) == remaining - {curr};
      queue, visited := ExpandCell(g, w, h, cls, visited0, start, component, queue, visited, curr);
    }
    assert component + queue == component;
    Finish(g, w, h, cls, visited0, start, component, visited);
  }
}
