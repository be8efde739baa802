/** The corridor search both programs run once per block: a breadth-first search
    through red cells only, seeded with the red cells next to the block, with a
    visited set of its own. A green cell met on the way is recorded as the block
    that owns it (unless that is the searching block) and is never entered. */
module Corridor {
  import opened Grid
  import opened Flood

  /** The red cells next to some cell of the block: where the search starts. */
  ghost function Seeds(g: seq<seq<Pixel>>, w: nat, h: nat, red: Pixel -> bool, points: seq<Point>): set<Point> {
    set i, q | 0 <= i < |points| && q in Neighbours(points[i]) && Member(g, w, h, red, q) :: q
  }

  /** The green cell n is owned by block t, and t is not the searching block `id`. */
  ghost predicate Touches(g: seq<seq<Pixel>>, w: nat, h: nat, green: Pixel -> bool,
                          owner: map<Point, int>, id: int, n: Point, t: int) {
    Member(g, w, h, green, n) && n in owner && owner[n] == t && t != id
  }

  /** The red cell c touches a green cell of block t. */
  ghost predicate HitAt(g: seq<seq<Pixel>>, w: nat, h: nat, green: Pixel -> bool,
                        owner: map<Point, int>, id: int, c: Point, t: int) {
    exists n :: Adjacent(c, n) && Touches(g, w, h, green, owner, id, n, t)
  }

  /** One of the expanded red cells touches a green cell of block t. */
  ghost predicate Hit(g: seq<seq<Pixel>>, w: nat, h: nat, green: Pixel -> bool,
                      owner: map<Point, int>, id: int, done: seq<Point>, t: int) {
    exists k :: 0 <= k < |done| && HitAt(g, w, h, green, owner, id, done[k], t)
  }

  /** The red cell r can be reached by a walk through red cells from a red cell next to the block. */
  ghost predicate InCorridor(g: seq<seq<Pixel>>, w: nat, h: nat, red: Pixel -> bool, points: seq<Point>, r: Point) {
    exists c :: IsPath(g, w, h, red, c) && c[0] in Seeds(g, w, h, red, points) && c[|c| - 1] == r
  }

  /** Block t is reached from the block with cells `points`: some red cell of its corridor
      touches a green cell that `owner` assigns to t, and t is not `id`. */
  ghost predicate Reached(g: seq<seq<Pixel>>, w: nat, h: nat, green: Pixel -> bool, red: Pixel -> bool,
                          owner: map<Point, int>, points: seq<Point>, id: int, t: int) {
    exists r :: InCorridor(g, w, h, red, points, r) && HitAt(g, w, h, green, owner, id, r, t)
  }

  /** Some walk through red cells starts next to a cell of a and ends next to a cell of b. */
  ghost predicate Linked(g: seq<seq<Pixel>>, w: nat, h: nat, red: Pixel -> bool, a: seq<Point>, b: seq<Point>) {
    exists c, i, j :: 0 <= i < |a| && 0 <= j < |b| && IsPath(g, w, h, red, c) &&
                      Adjacent(a[i], c[0]) && Adjacent(c[|c| - 1], b[j])
  }

  /** The state of a search: `found` lists the marked red cells in the order they were marked. */
  ghost predicate Searching(g: seq<seq<Pixel>>, w: nat, h: nat, red: Pixel -> bool,
                            seeds: set<Point>, found: seq<Point>, visited: set<Point>) {
    && visited == Elems(found)
    && NoDups(found)
    && AllMembers(g, w, h, red, found)
    && Chained(seeds, found)
  }

  /** Marking an unmarked red cell that is a seed, or that touches the k-th marked cell,
      keeps the search state. */
  lemma Mark(g: seq<seq<Pixel>>, w: nat, h: nat, red: Pixel -> bool,
             seeds: set<Point>, found: seq<Point>, visited: set<Point>, k: nat, next: Point)
    requires Searching(g, w, h, red, seeds, found, visited)
    requires Member(g, w, h, red, next) && next !in visited
    requires next in seeds || (k < |found| && Adjacent(found[k], next))
    ensures Searching(g, w, h, red, seeds, found + [next], visited + {next})
  {
    var f := found + [next];
    assert Elems(f) == Elems(found) + {next};
    forall i | 0 <= i < |f| ensures f[i] in seeds || HasParent(f, i) {
      if i < |found| {
        assert found[i] in seeds || HasParent(found, i);
        if found[i] !in seeds {
          var j :| 0 <= j < i && Adjacent(found[j], found[i]);
          assert f[j] == found[j];
        }
      } else if next !in seeds {
        assert f[k] == found[k];
      }
    }
  }

  /** Collects the seeds: for every cell of the block and every direction, a red neighbour
      inside the grid that is not yet marked is marked and enqueued. */
  method Seed(g: seq<seq<Pixel>>, w: nat, h: nat, red: Pixel -> bool, points: seq<Point>)
    returns (queue: seq<Point>, visited: set<Point>)
    requires Fits(g, w, h)
    ensures Searching(g, w, h, red, Seeds(g, w, h, red, points), queue, visited)
    ensures visited == Seeds(g, w, h, red, points)
  {
    ghost var seeds := Seeds(g, w, h, red, points);
    queue, visited := [], {};
    var i := 0;
    while i < |points|
      invariant 0 <= i <= |points|
      invariant Searching(g, w, h, red, seeds, queue, visited)
      invariant visited <= seeds
      invariant forall j, q :: 0 <= j < i && q in Neighbours(points[j]) && Member(g, w, h, red, q) ==> q in visited
    {
      var ns := Neighbours(points[i]);
      var d := 0;
      while d < 4
        invariant 0 <= d <= 4
        invariant Searching(g, w, h, red, seeds, queue, visited)
        invariant visited <= seeds
        invariant forall j, q :: 0 <= j < i && q in Neighbours(points[j]) && Member(g, w, h, red, q) ==> q in visited
        invariant forall e :: 0 <= e < d && Member(g, w, h, red, ns[e]) ==> ns[e] in visited
      {
        var next := ns[d];
        if 0 <= next.x < w && 0 <= next.y < h && red(g[next.y][next.x]) && next !in visited {
          assert next in Neighbours(points[i]) && Member(g, w, h, red, next);
          assert next in seeds;
          Mark(g, w, h, red, seeds, queue, visited, 0, next);
          visited := visited + {next};
          queue := queue + [next];
        }
        d := d + 1;
      }
      assert forall q :: q in Neighbours(points[i]) ==> exists e :: 0 <= e < 4 && ns[e] == q;
      i := i + 1;
    }
  }

  /** A hit through the cells expanded so far and one more. */
  lemma HitSnoc(g: seq<seq<Pixel>>, w: nat, h: nat, green: Pixel -> bool,
                owner: map<Point, int>, id: int, done: seq<Point>, c: Point, t: int)
    ensures Hit(g, w, h, green, owner, id, done + [c], t) <==>
            Hit(g, w, h, green, owner, id, done, t) || HitAt(g, w, h, green, owner, id, c, t)
  {
    var d := done + [c];
    if Hit(g, w, h, green, owner, id, d, t) {
      var k :| 0 <= k < |d| && HitAt(g, w, h, green, owner, id, d[k], t);
      if k < |done| {
        assert d[k] == done[k];
      }
    }
    if Hit(g, w, h, green, owner, id, done, t) {
      var k :| 0 <= k < |done| && HitAt(g, w, h, green, owner, id, done[k], t);
      assert d[k] == done[k];
    }
    if HitAt(g, w, h, green, owner, id, c, t) {
      assert d[|done|] == c;
    }
  }

  /** Tries the four neighbours of the red cell `curr` just taken from the queue: a green
      neighbour records its owner (when that is another block) and is not entered; an
      unmarked red neighbour is marked and enqueued. */
  method ExpandRed(g: seq<seq<Pixel>>, w: nat, h: nat, green: Pixel -> bool, red: Pixel -> bool,
                   owner: map<Point, int>, id: int,
                   ghost seeds: set<Point>, ghost before: seq<Point>, curr: Point,
                   reach0: set<int>, queue0: seq<Point>, visited0: set<Point>)
    returns (reach: set<int>, queue: seq<Point>, visited: set<Point>)
    requires Fits(g, w, h)
    requires forall p :: green(p) ==> !red(p)
    requires Searching(g, w, h, red, seeds, (before + [curr]) + queue0, visited0)
    requires Expanded(g, w, h, red, before + [curr], {curr}, visited0)
    requires forall t :: t in reach0 <==> Hit(g, w, h, green, owner, id, before, t)
    ensures Searching(g, w, h, red, seeds, (before + [curr]) + queue, visited)
    ensures Expanded(g, w, h, red, before + [curr], {}, visited)
    ensures forall t :: t in reach <==> Hit(g, w, h, green, owner, id, before + [curr], t)
    ensures visited0 <= visited
  {
    ghost var done := before + [curr];
    reach, queue, visited := reach0, queue0, visited0;
    var ns := Neighbours(curr);
    var d := 0;
    while d < 4
      invariant 0 <= d <= 4
      invariant Searching(g, w, h, red, seeds, done + queue, visited)
      invariant Expanded(g, w, h, red, done, {curr}, visited)
      invariant visited0 <= visited
      invariant forall e :: 0 <= e < d && Member(g, w, h, red, ns[e]) ==> ns[e] in visited
      invariant forall t :: t in reach <==> (Hit(g, w, h, green, owner, id, before, t) ||
                                             exists e :: 0 <= e < d && Touches(g, w, h, green, owner, id, ns[e], t))
    {
      var next := ns[d];
      if 0 <= next.x < w && 0 <= next.y < h {
        if green(g[next.y][next.x]) {
          if next in owner && owner[next] != id {
            reach := reach + {owner[next]};
          }
        } else if red(g[next.y][next.x]) && next !in visited {
          ghost var found := done + queue;
          assert found[|before|] == curr;
          Mark(g, w, h, red, seeds, found, visited, |before|, next);
          visited := visited + {next};
          queue := queue + [next];
          assert done + queue == found + [next];
        }
      }
      d := d + 1;
    }
    assert forall q :: Adjacent(curr, q) ==> q in ns;
    forall t ensures t in reach <==> Hit(g, w, h, green, owner, id, done, t) {
      HitSnoc(g, w, h, green, owner, id, before, curr, t);
    }
  }

  /** Expanding the head of the queue keeps the search state and takes one more grid cell
      out of the unexpanded ones. */
  lemma PopRed(g: seq<seq<Pixel>>, w: nat, h: nat, red: Pixel -> bool,
               seeds: set<Point>, done: seq<Point>, queue: seq<Point>, visited: set<Point>)
    requires |queue| > 0
    requires Searching(g, w, h, red, seeds, done + queue, visited)
    requires Expanded(g, w, h, red, done, {}, visited)
    ensures Searching(g, w, h, red, seeds, (done + [queue[0]]) + queue[1..], visited)
    ensures Expanded(g, w, h, red, done + [queue[0]], {queue[0]}, visited)
    ensures queue[0] in Cells(w, h) - Elems(done)
    ensures Elems(done + [queue[0]]) == Elems(done) + {queue[0]}
  {
    var found := done + queue;
    assert (done + [queue[0]]) + queue[1..] == found;
    assert found[|done|] == queue[0];
    forall i | 0 <= i < |done| ensures done[i] != queue[0] {
      assert found[i] == done[i];
    }
    InCells(queue[0], w, h);
  }

  /** The red cells a search marks are exactly the corridor of the block. */
  lemma MarkedIsCorridor(g: seq<seq<Pixel>>, w: nat, h: nat, red: Pixel -> bool,
                         points: seq<Point>, order: seq<Point>, r: Point)
    requires Chained(Seeds(g, w, h, red, points), order) && AllMembers(g, w, h, red, order)
    requires Seeds(g, w, h, red, points) <= Elems(order)
    requires Closed(g, w, h, red, Elems(order))
    ensures r in order <==> InCorridor(g, w, h, red, points, r)
  {
    if r in order {
      var i :| 0 <= i < |order| && order[i] == r;
      var c := ParentPath(g, w, h, red, Seeds(g, w, h, red, points), order, i);
    }
    if InCorridor(g, w, h, red, points, r) {
      var c :| IsPath(g, w, h, red, c) && c[0] in Seeds(g, w, h, red, points) && c[|c| - 1] == r;
      PathInClosed(g, w, h, red, Elems(order), c);
    }
  }

  /** The search from the block with cells `points` and id `id`. `owner` maps green cells to
      the blocks that own them. The result is the set of blocks touched by the corridor;
      `order` lists the red cells in the order they were marked, each once. */
  method Search(g: seq<seq<Pixel>>, w: nat, h: nat, green: Pixel -> bool, red: Pixel -> bool,
                owner: map<Point, int>, points: seq<Point>, id: int)
    returns (reach: set<int>, ghost order: seq<Point>)
    requires Fits(g, w, h)
    requires forall p :: green(p) ==> !red(p)
    ensures NoDups(order) && AllMembers(g, w, h, red, order)
    ensures forall r :: r in order <==> InCorridor(g, w, h, red, points, r)
    ensures forall t :: t in reach <==> Reached(g, w, h, green, red, owner, points, id, t)
    ensures id !in reach
  {
    ghost var seeds := Seeds(g, w, h, red, points);
    var queue, visited := Seed(g, w, h, red, points);
    ghost var done: seq<Point> := [];
    assert done + queue == queue;
    reach := {};
    while |queue| > 0
      invariant Searching(g, w, h, red, seeds, done + queue, visited)
      invariant Expanded(g, w, h, red, done, {}, visited)
      invariant forall t :: t in reach <==> Hit(g, w, h, green, owner, id, done, t)
      invariant seeds <= visited
      decreases Cells(w, h) - Elems(done)
    {
      var curr := queue[0];
      PopRed(g, w, h, red, seeds, done, queue, visited);
      ghost var remaining := Cells(w, h) - Elems(done);
      ghost var before := done;
      queue := queue[1..];
      done := done + [curr];
      assert Cells(w, h) - Elems(done) == remaining - {curr};
      reach, queue, visited := ExpandRed(g, w, h, green, red, owner, id, seeds, before, curr, reach, queue, visited);
    }
    assert done + queue == done;
    order := done;
    forall p, q | p in Elems(order) && Adjacent(p, q) && Member(g, w, h, red, q) ensures q in Elems(order) {
    }
    forall r ensures r in order <==> InCorridor(g, w, h, red, points, r) {
      MarkedIsCorridor(g, w, h, red, points, order, r);
    }
    forall t ensures t in reach <==> Reached(g, w, h, green, red, owner, points, id, t) {
      HitIsReached(g, w, h, green, red, owner, points, id, order, t);
    }
  }

  /** Hits of the marked cells, when those are exactly the corridor, are the reached blocks. */
  lemma HitIsReached(g: seq<seq<Pixel>>, w: nat, h: nat, green: Pixel -> bool, red: Pixel -> bool,
                     owner: map<Point, int>, points: seq<Point>, id: int, order: seq<Point>, t: int)
    requires forall r :: r in order <==> InCorridor(g, w, h, red, points, r)
    ensures Hit(g, w, h, green, owner, id, order, t) <==> Reached(g, w, h, green, red, owner, points, id, t)
  {
    if Hit(g, w, h, green, owner, id, order, t) {
      var k :| 0 <= k < |order| && HitAt(g, w, h, green, owner, id, order[k], t);
      assert order[k] in order;
    }
    if Reached(g, w, h, green, red, owner, points, id, t) {
      var r :| InCorridor(g, w, h, red, points, r) && HitAt(g, w, h, green, owner, id, r, t);
      var k :| 0 <= k < |order| && order[k] == r;
    }
  }

  /** Corridors join blocks symmetrically. */
  lemma LinkedSymmetric(g: seq<seq<Pixel>>, w: nat, h: nat, red: Pixel -> bool, a: seq<Point>, b: seq<Point>)
    requires Linked(g, w, h, red, a, b)
    ensures Linked(g, w, h, red, b, a)
  {
    var c, i, j :| 0 <= i < |a| && 0 <= j < |b| && IsPath(g, w, h, red, c) &&
                   Adjacent(a[i], c[0]) && Adjacent(c[|c| - 1], b[j]);
    ReversePath(g, w, h, red, c);
    var r := Reverse(c);
    assert r[0] == c[|c| - 1] && r[|r| - 1] == c[0];
    assert Adjacent(b[j], r[0]) && Adjacent(r[|r| - 1], a[i]);
  }

  /** Every cell in `owner` lies in the part it is mapped to. */
  ghost predicate OwnedIn(owner: map<Point, int>, parts: seq<seq<Point>>) {
    forall n :: n in owner ==> 0 <= owner[n] < |parts| && n in parts[owner[n]]
  }

  /** Every cell of every part is mapped to the index of its part. */
  ghost predicate OwnsAll(owner: map<Point, int>, parts: seq<seq<Point>>) {
    forall k, n :: 0 <= k < |parts| && n in parts[k] ==> n in owner && owner[n] == k
  }

  /** Every cell of every part is green. */
  ghost predicate AllGreen(g: seq<seq<Pixel>>, w: nat, h: nat, green: Pixel -> bool, parts: seq<seq<Point>>) {
    forall k, n :: 0 <= k < |parts| && n in parts[k] ==> Member(g, w, h, green, n)
  }

  /** `owner` maps exactly the cells of the parts, each to the index of its part, and
      every cell of a part is green. */
  ghost predicate Owns(g: seq<seq<Pixel>>, w: nat, h: nat, green: Pixel -> bool,
                       owner: map<Point, int>, parts: seq<seq<Point>>) {
    OwnedIn(owner, parts) && OwnsAll(owner, parts) && AllGreen(g, w, h, green, parts)
  }

  lemma OwnedTouch(g: seq<seq<Pixel>>, w: nat, h: nat, green: Pixel -> bool,
                   owner: map<Point, int>, parts: seq<seq<Point>>, id: int, t: int, n: Point)
    requires OwnsAll(owner, parts) && AllGreen(g, w, h, green, parts)
    requires 0 <= t < |parts| && t != id && n in parts[t]
    ensures Touches(g, w, h, green, owner, id, n, t)
  {
  }

  lemma ReachedLinked(g: seq<seq<Pixel>>, w: nat, h: nat, green: Pixel -> bool, red: Pixel -> bool,
                      owner: map<Point, int>, parts: seq<seq<Point>>, a: seq<Point>, id: int, t: int)
    requires Owns(g, w, h, green, owner, parts)
    requires Reached(g, w, h, green, red, owner, a, id, t)
    ensures 0 <= t < |parts| && t != id && Linked(g, w, h, red, a, parts[t])
  {
    var r :| InCorridor(g, w, h, red, a, r) && HitAt(g, w, h, green, owner, id, r, t);
    var c :| IsPath(g, w, h, red, c) && c[0] in Seeds(g, w, h, red, a) && c[|c| - 1] == r;
    var i, q :| 0 <= i < |a| && q in Neighbours(a[i]) && Member(g, w, h, red, q) && q == c[0];
    var n :| Adjacent(r, n) && Touches(g, w, h, green, owner, id, n, t);
    var j :| 0 <= j < |parts[t]| && parts[t][j] == n;
    assert Adjacent(a[i], c[0]) && Adjacent(c[|c| - 1], parts[t][j]);
  }

  lemma LinkedReached(g: seq<seq<Pixel>>, w: nat, h: nat, green: Pixel -> bool, red: Pixel -> bool,
                      owner: map<Point, int>, parts: seq<seq<Point>>, a: seq<Point>, id: int, t: int)
    requires Owns(g, w, h, green, owner, parts)
    requires 0 <= t < |parts| && t != id && Linked(g, w, h, red, a, parts[t])
    ensures Reached(g, w, h, green, red, owner, a, id, t)
  {
    var b := parts[t];
    var c, i, j :| 0 <= i < |a| && 0 <= j < |b| && IsPath(g, w, h, red, c) &&
                   Adjacent(a[i], c[0]) && Adjacent(c[|c| - 1], b[j]);
    assert Member(g, w, h, red, c[0]);
    assert c[0] in Neighbours(a[i]);
    assert c[0] in Seeds(g, w, h, red, a);
    assert InCorridor(g, w, h, red, a, c[|c| - 1]);
    assert b[j] in parts[t];
    OwnedTouch(g, w, h, green, owner, parts, id, t, b[j]);
  }

  /** What the search finds, said without the map: the blocks that a corridor from the
      searching block leads to, other than itself. */
  lemma ReachedIsLinked(g: seq<seq<Pixel>>, w: nat, h: nat, green: Pixel -> bool, red: Pixel -> bool,
                        owner: map<Point, int>, parts: seq<seq<Point>>, a: seq<Point>, id: int, t: int)
    requires Owns(g, w, h, green, owner, parts)
    ensures Reached(g, w, h, green, red, owner, a, id, t) <==>
            0 <= t < |parts| && t != id && Linked(g, w, h, red, a, parts[t])
  {
    if Reached(g, w, h, green, red, owner, a, id, t) {
      ReachedLinked(g, w, h, green, red, owner, parts, a, id, t);
    }
    if 0 <= t < |parts| && t != id && Linked(g, w, h, red, a, parts[t]) {
      LinkedReached(g, w, h, green, red, owner, parts, a, id, t);
    }
  }
}
