/** Green blocks and the graph built over them, shared by both programs: the
    bounding box of a block, the sort of blocks by centre, the renumbering and
    naming loop, the map from cells to block ids, and the graph loop that runs
    one corridor search per block and keeps the connections to later blocks. */
module Blocks {
  import opened Grid
  import opened Naming
  import opened Text
  import opened Corridor
  import opened Labelling

  /** A green block: its id, its name, its cells in discovery order and its centre. */
  datatype Block = Block(id: int, name: string, points: seq<Point>, center: Point)

  /** One record of the output graph. */
  datatype GraphNode = GraphNode(name: string, connections: seq<string>, center: Point)

  // Bounding box.

  function MinX(ps: seq<Point>): (m: int)
    requires |ps| > 0
    ensures forall i :: 0 <= i < |ps| ==> m <= ps[i].x
    ensures exists i :: 0 <= i < |ps| && ps[i].x == m
  {
    if |ps| == 1 then ps[0].x
    else
      var m := MinX(ps[1..]);
      assert forall i :: 1 <= i < |ps| ==> ps[i] == ps[1..][i - 1];
      if ps[0].x <= m then ps[0].x else m
  }

  function MaxX(ps: seq<Point>): (m: int)
    requires |ps| > 0
    ensures forall i :: 0 <= i < |ps| ==> ps[i].x <= m
    ensures exists i :: 0 <= i < |ps| && ps[i].x == m
  {
    if |ps| == 1 then ps[0].x
    else
      var m := MaxX(ps[1..]);
      assert forall i :: 1 <= i < |ps| ==> ps[i] == ps[1..][i - 1];
      if ps[0].x >= m then ps[0].x else m
  }

  function MinY(ps: seq<Point>): (m: int)
    requires |ps| > 0
    ensures forall i :: 0 <= i < |ps| ==> m <= ps[i].y
    ensures exists i :: 0 <= i < |ps| && ps[i].y == m
  {
    if |ps| == 1 then ps[0].y
    else
      var m := MinY(ps[1..]);
      assert forall i :: 1 <= i < |ps| ==> ps[i] == ps[1..][i - 1];
      if ps[0].y <= m then ps[0].y else m
  }

  function MaxY(ps: seq<Point>): (m: int)
    requires |ps| > 0
    ensures forall i :: 0 <= i < |ps| ==> ps[i].y <= m
    ensures exists i :: 0 <= i < |ps| && ps[i].y == m
  {
    if |ps| == 1 then ps[0].y
    else
      var m := MaxY(ps[1..]);
      assert forall i :: 1 <= i < |ps| ==> ps[i] == ps[1..][i - 1];
      if ps[0].y >= m then ps[0].y else m
  }

  /** p lies in the bounding box of the cells ps. */
  predicate InBox(ps: seq<Point>, p: Point)
    requires |ps| > 0
  {
    MinX(ps) <= p.x <= MaxX(ps) && MinY(ps) <= p.y <= MaxY(ps)
  }

  // Sorting by centre: by centre.y, then centre.x.

  /** p's key (y, x) is at most q's. */
  predicate KeyLeq(p: Point, q: Point) {
    p.y < q.y || (p.y == q.y && p.x <= q.x)
  }

  /** The centres are non-decreasing in (y, x). */
  predicate CentreSorted(bs: seq<Block>) {
    forall i, j :: 0 <= i < j < |bs| ==> KeyLeq(bs[i].center, bs[j].center)
  }

  /** Blocks with equal centres appear in increasing id order. */
  predicate TiesById(bs: seq<Block>) {
    forall i, j :: 0 <= i < j < |bs| && bs[i].center == bs[j].center ==> bs[i].id < bs[j].id
  }

  /** Ids strictly increase along the list (the order of discovery). */
  predicate IdsIncreasing(bs: seq<Block>) {
    forall i, j :: 0 <= i < j < |bs| ==> bs[i].id < bs[j].id
  }

  /** Puts b in front of the first block whose centre is not before b's. */
  function InsertBlock(b: Block, s: seq<Block>): (r: seq<Block>)
    ensures |r| == |s| + 1
  {
    if s == [] then [b]
    else if !Before(s[0].center, b.center) then [b] + s
    else [s[0]] + InsertBlock(b, s[1..])
  }

  /** A stable insertion sort by centre (the order of Python's `list.sort`; Go's
      `sort.Slice` may order blocks with equal centres differently). */
  function SortByCentre(s: seq<Block>): (r: seq<Block>)
    ensures |r| == |s|
  {
    if s == [] then [] else InsertBlock(s[0], SortByCentre(s[1..]))
  }

  /** Inserting puts b after exactly the blocks whose centres come before its own. */
  lemma {:induction false} InsertShape(b: Block, s: seq<Block>) returns (k: nat)
    ensures k <= |s| && InsertBlock(b, s) == s[..k] + [b] + s[k..]
    ensures forall i :: 0 <= i < k ==> Before(s[i].center, b.center)
    ensures k < |s| ==> !Before(s[k].center, b.center)
  {
    if s == [] {
      k := 0;
    } else if !Before(s[0].center, b.center) {
      k := 0;
    } else {
      var k' := InsertShape(b, s[1..]);
      k := k' + 1;
      assert s[..k] == [s[0]] + s[1..][..k'];
      assert s[k..] == s[1..][k'..];
      forall i | 0 <= i < k ensures Before(s[i].center, b.center) {
        if i > 0 {
          assert s[i] == s[1..][i - 1];
        }
      }
    }
  }

  lemma {:induction false} SortByCentrePermutes(s: seq<Block>)
    ensures multiset(SortByCentre(s)) == multiset(s)
  {
    if s != [] {
      SortByCentrePermutes(s[1..]);
      var t := SortByCentre(s[1..]);
      var k := InsertShape(s[0], t);
      assert t == t[..k] + t[k..];
      assert s == [s[0]] + s[1..];
    }
  }

  /** The sorted blocks have non-decreasing centres. */
  lemma {:induction false} SortByCentreSorted(s: seq<Block>)
    ensures CentreSorted(SortByCentre(s))
  {
    if s != [] {
      SortByCentreSorted(s[1..]);
      var t := SortByCentre(s[1..]);
      var b := s[0];
      var k := InsertShape(b, t);
      var r := SortByCentre(s);
      forall i, j | 0 <= i < j < |r| ensures KeyLeq(r[i].center, r[j].center) {
        if j < k {
          assert r[i] == t[i] && r[j] == t[j];
        } else if j == k {
          assert r[i] == t[i] && r[j] == b;
        } else if i < k {
          assert r[i] == t[i] && r[j] == t[j - 1];
        } else if i == k {
          assert r[i] == b && r[j] == t[j - 1];
          assert KeyLeq(t[k].center, t[j - 1].center) || j - 1 == k;
        } else {
          assert r[i] == t[i - 1] && r[j] == t[j - 1];
        }
      }
    }
  }

  /** When the blocks come in increasing id order, blocks with equal centres keep that
      order: the sort is stable. */
  lemma {:induction false} SortByCentreStable(s: seq<Block>)
    requires IdsIncreasing(s)
    ensures TiesById(SortByCentre(s))
  {
    if s != [] {
      assert IdsIncreasing(s[1..]);
      SortByCentreStable(s[1..]);
      SortByCentrePermutes(s[1..]);
      var t := SortByCentre(s[1..]);
      var b := s[0];
      var k := InsertShape(b, t);
      var r := SortByCentre(s);
      forall i | 0 <= i < |t| ensures b.id < t[i].id {
        assert t[i] in multiset(s[1..]);
        var m :| 0 <= m < |s[1..]| && s[1..][m] == t[i];
        assert s[m + 1] == t[i];
      }
      forall i, j | 0 <= i < j < |r| && r[i].center == r[j].center ensures r[i].id < r[j].id {
        if j < k {
          assert r[i] == t[i] && r[j] == t[j];
        } else if j == k {
        } else if i < k {
          assert r[i] == t[i] && r[j] == t[j - 1];
        } else if i == k {
          assert r[i] == b && r[j] == t[j - 1];
        } else {
          assert r[i] == t[i - 1] && r[j] == t[j - 1];
        }
      }
    }
  }

  // Renumbering and naming.

  /** Each block's id is its position and its name is generated from it. */
  predicate Numbered(bs: seq<Block>) {
    |bs| <= 702 && forall i :: 0 <= i < |bs| ==> bs[i].id == i && bs[i].name == GenerateName(i).value
  }

  /** The naming loop: block i gets id i and name GenerateName(i). From block 702 on the
      name formula fails, and so does the whole run. */
  method AssignNames(blocks: seq<Block>) returns (r: Result<seq<Block>>)
    ensures r.Ok? <==> |blocks| <= 702
    ensures r.Err? ==> r.error == IndexOutOfRange
    ensures r.Ok? ==> |r.value| == |blocks| && Numbered(r.value)
    ensures r.Ok? ==> forall i :: 0 <= i < |blocks| ==>
              r.value[i].points == blocks[i].points && r.value[i].center == blocks[i].center
  {
    var bs := blocks;
    var i := 0;
    while i < |bs|
      invariant 0 <= i <= |bs| == |blocks| && i <= 702
      invariant forall k :: 0 <= k < i ==> bs[k].id == k && bs[k].name == GenerateName(k).value
      invariant forall k :: 0 <= k < |bs| ==> bs[k].points == blocks[k].points && bs[k].center == blocks[k].center
    {
      var name := GenerateName(i);
      if name.Err? {
        return Err(name.error);
      }
      bs := bs[i := bs[i].(id := i, name := name.value)];
      i := i + 1;
    }
    return Ok(bs);
  }

  /** Numbered blocks have pairwise different names. */
  lemma NumberedNamesDistinct(bs: seq<Block>, i: int, j: int)
    requires Numbered(bs) && 0 <= i < |bs| && 0 <= j < |bs| && i != j
    ensures bs[i].name != bs[j].name
  {
    NameInjective(i, j);
  }

  // The cell-to-block map.

  /** No cell lies in two blocks. */
  ghost predicate BlocksDisjoint(bs: seq<Block>) {
    forall k, l, q :: 0 <= k < l < |bs| && q in bs[k].points ==> q !in bs[l].points
  }

  /** Block k is the last block that holds p. */
  ghost predicate LastHolder(bs: seq<Block>, k: int, p: Point) {
    0 <= k < |bs| && p in bs[k].points && forall l :: k < l < |bs| ==> p !in bs[l].points
  }

  /** The block cells as a list of cell lists. */
  function Parts(bs: seq<Block>): (ps: seq<seq<Point>>)
    ensures |ps| == |bs| && forall i :: 0 <= i < |bs| ==> ps[i] == bs[i].points
  {
    seq(|bs|, i requires 0 <= i < |bs| => bs[i].points)
  }

  /** Runs over all cells of all blocks and maps each to its block's id; a cell held by
      several blocks ends up with the id of the last of them. */
  method IndexPoints(blocks: seq<Block>) returns (owner: map<Point, int>)
    ensures forall p :: p in owner <==> exists k :: 0 <= k < |blocks| && p in blocks[k].points
    ensures forall k, p :: LastHolder(blocks, k, p) ==> p in owner && owner[p] == blocks[k].id
  {
    owner := map[];
    var i := 0;
    while i < |blocks|
      invariant 0 <= i <= |blocks|
      invariant forall p :: p in owner <==> exists k :: 0 <= k < i && p in blocks[k].points
      invariant forall k, p :: LastHolder(blocks[..i], k, p) ==> p in owner && owner[p] == blocks[k].id
    {
      var b := blocks[i];
      var j := 0;
      while j < |b.points|
        invariant 0 <= j <= |b.points|
        invariant forall p :: p in owner <==> (exists k :: 0 <= k < i && p in blocks[k].points) || p in b.points[..j]
        invariant forall p :: p in b.points[..j] ==> p in owner && owner[p] == b.id
        invariant forall k, p :: LastHolder(blocks[..i], k, p) && p !in b.points[..j] ==> p in owner && owner[p] == blocks[k].id
      {
        owner := owner[b.points[j] := b.id];
        assert b.points[..j + 1] == b.points[..j] + [b.points[j]];
        j := j + 1;
      }
      assert b.points[..j] == b.points;
      forall k, p | LastHolder(blocks[..i + 1], k, p) ensures p in owner && owner[p] == blocks[k].id {
        if k < i {
          assert LastHolder(blocks[..i], k, p);
          assert p !in blocks[..i + 1][i].points;
        }
      }
      i := i + 1;
    }
    assert blocks[..i] == blocks;
  }

  /** For numbered, disjoint blocks the map sends each cell to the block that holds it. */
  lemma IndexOwns(g: seq<seq<Pixel>>, w: nat, h: nat, green: Pixel -> bool,
                  blocks: seq<Block>, owner: map<Point, int>)
    requires forall p :: p in owner <==> exists k :: 0 <= k < |blocks| && p in blocks[k].points
    requires forall k, p :: LastHolder(blocks, k, p) ==> p in owner && owner[p] == blocks[k].id
    requires forall k :: 0 <= k < |blocks| ==> blocks[k].id == k
    requires BlocksDisjoint(blocks)
    requires forall k :: 0 <= k < |blocks| ==> AllMembers(g, w, h, green, blocks[k].points)
    ensures Owns(g, w, h, green, owner, Parts(blocks))
  {
    var parts := Parts(blocks);
    forall k, n | 0 <= k < |parts| && n in parts[k] ensures n in owner && owner[n] == k {
      assert LastHolder(blocks, k, n);
    }
    forall n | n in owner ensures 0 <= owner[n] < |parts| && n in parts[owner[n]] {
      var k :| 0 <= k < |blocks| && n in blocks[k].points;
      assert LastHolder(blocks, k, n);
    }
    forall k, n | 0 <= k < |parts| && n in parts[k] ensures Member(g, w, h, green, n) {
      var i :| 0 <= i < |blocks[k].points| && blocks[k].points[i] == n;
    }
  }

  // The graph loop.

  /** picked holds the names of the blocks listed in ids, which are distinct members of
      reach above id and contain every such member of reach - rest. */
  ghost predicate Picked(reach: set<int>, rest: set<int>, blocks: seq<Block>, id: int, picked: seq<string>, ids: seq<int>) {
    && |picked| == |ids|
    && (forall k :: 0 <= k < |ids| ==> ids[k] in reach - rest && ids[k] > id && 0 <= ids[k] < |blocks| && picked[k] == blocks[ids[k]].name)
    && (forall t :: t in reach - rest && t > id ==> t in ids)
    && NoDups(ids)
  }

  lemma PickedNames(reach: set<int>, blocks: seq<Block>, id: int, picked: seq<string>, ids: seq<int>)
    requires Picked(reach, {}, blocks, id, picked, ids)
    requires forall t :: t in reach ==> 0 <= t < |blocks|
    ensures forall s :: s in picked <==> exists t :: t in reach && t > id && blocks[t].name == s
  {
    forall s ensures s in picked <==> exists t :: t in reach && t > id && blocks[t].name == s {
      if s in picked {
        var k :| 0 <= k < |picked| && picked[k] == s;
        assert ids[k] in reach;
      }
      if exists t :: t in reach && t > id && blocks[t].name == s {
        var t :| t in reach && t > id && blocks[t].name == s;
        assert t in reach - {};
        var k :| 0 <= k < |ids| && ids[k] == t;
        assert picked[k] == s;
      }
    }
  }

  lemma PickedDistinct(reach: set<int>, blocks: seq<Block>, id: int, picked: seq<string>, ids: seq<int>)
    requires Picked(reach, {}, blocks, id, picked, ids)
    requires forall t :: t in reach ==> 0 <= t < |blocks|
    requires forall a, b :: 0 <= a < b < |blocks| ==> blocks[a].name != blocks[b].name
    ensures forall i, j :: 0 <= i < j < |SortStrings(picked)| ==> LexLess(SortStrings(picked)[i], SortStrings(picked)[j])
  {
    forall a, b | 0 <= a < b < |picked| ensures picked[a] != picked[b] {
      assert ids[a] != ids[b];
      if ids[a] > ids[b] {
        assert blocks[ids[b]].name != blocks[ids[a]].name;
      }
    }
    SortStringsStrict(picked);
  }

  /** The reached blocks with a larger id than `id`, as names in the order the set is
      walked (which neither language fixes), then sorted. */
  method Connections(reach: set<int>, blocks: seq<Block>, id: int) returns (conns: seq<string>)
    requires forall t :: t in reach ==> 0 <= t < |blocks|
    ensures forall s :: s in conns <==> exists t :: t in reach && t > id && blocks[t].name == s
    ensures SortedStrings(conns)
    ensures (forall a, b :: 0 <= a < b < |blocks| ==> blocks[a].name != blocks[b].name) ==>
              forall i, j :: 0 <= i < j < |conns| ==> LexLess(conns[i], conns[j])
  {
    var picked: seq<string> := [];
    ghost var ids: seq<int> := [];
    var rest := reach;
    while rest != {}
      invariant rest <= reach
      invariant Picked(reach, rest, blocks, id, picked, ids)
      decreases |rest|
    {
      var t := Pick(rest);
      if t > id {
        picked := picked + [blocks[t].name];
        ids := ids + [t];
      }
      rest := rest - {t};
    }
    conns := SortStrings(picked);
    SortStringsSorted(picked);
    SortStringsMembers(picked);
    PickedNames(reach, blocks, id, picked, ids);
    if forall a, b :: 0 <= a < b < |blocks| ==> blocks[a].name != blocks[b].name {
      PickedDistinct(reach, blocks, id, picked, ids);
    }
  }

  /** The record of block i: its name and centre, and the sorted names of the later blocks
      its corridor search reaches (strictly sorted when block names differ). */
  ghost predicate NodeOf(g: seq<seq<Pixel>>, w: nat, h: nat, green: Pixel -> bool, red: Pixel -> bool,
                         blocks: seq<Block>, owner: map<Point, int>, i: int, node: GraphNode)
    requires 0 <= i < |blocks|
  {
    && node.name == blocks[i].name && node.center == blocks[i].center
    && (forall s :: s in node.connections <==>
          exists t :: 0 <= t < |blocks| && t > blocks[i].id && blocks[t].name == s &&
                      Reached(g, w, h, green, red, owner, blocks[i].points, blocks[i].id, t))
    && SortedStrings(node.connections)
    && ((forall a, b :: 0 <= a < b < |blocks| ==> blocks[a].name != blocks[b].name) ==>
          forall a, b :: 0 <= a < b < |node.connections| ==> LexLess(node.connections[a], node.connections[b]))
  }

  /** One iteration of the graph loop: the corridor search from block i and its record. */
  method BuildNode(g: seq<seq<Pixel>>, w: nat, h: nat, green: Pixel -> bool, red: Pixel -> bool,
                   blocks: seq<Block>, owner: map<Point, int>, i: int)
    returns (node: GraphNode)
    requires Fits(g, w, h)
    requires forall p :: green(p) ==> !red(p)
    requires forall p :: p in owner ==> 0 <= owner[p] < |blocks|
    requires 0 <= i < |blocks|
    ensures NodeOf(g, w, h, green, red, blocks, owner, i, node)
  {
    var block := blocks[i];
    ghost var order;
    var reach;
    reach, order := Search(g, w, h, green, red, owner, block.points, block.id);
    forall t | t in reach ensures 0 <= t < |blocks| {
      var r :| InCorridor(g, w, h, red, block.points, r) && HitAt(g, w, h, green, owner, block.id, r, t);
    }
    var conns := Connections(reach, blocks, block.id);
    node := GraphNode(block.name, conns, block.center);
    forall s ensures s in conns <==>
        exists t :: 0 <= t < |blocks| && t > block.id && blocks[t].name == s &&
                    Reached(g, w, h, green, red, owner, block.points, block.id, t)
    {
    }
  }

  /** One graph record per block, in block order. */
  method BuildGraph(g: seq<seq<Pixel>>, w: nat, h: nat, green: Pixel -> bool, red: Pixel -> bool,
                    blocks: seq<Block>, owner: map<Point, int>)
    returns (graph: seq<GraphNode>)
    requires Fits(g, w, h)
    requires forall p :: green(p) ==> !red(p)
    requires forall p :: p in owner ==> 0 <= owner[p] < |blocks|
    ensures |graph| == |blocks|
    ensures forall i :: 0 <= i < |blocks| ==> NodeOf(g, w, h, green, red, blocks, owner, i, graph[i])
  {
    graph := [];
    var i := 0;
    while i < |blocks|
      invariant 0 <= i <= |blocks| && |graph| == i
      invariant forall k :: 0 <= k < i ==> NodeOf(g, w, h, green, red, blocks, owner, k, graph[k])
    {
      var node := BuildNode(g, w, h, green, red, blocks, owner, i);
      graph := graph + [node];
      i := i + 1;
    }
  }

  /** The output graph, said without the search: for blocks i and j, j's name is among
      i's connections exactly when i < j and a red corridor joins the two blocks. */
  ghost predicate Wired(g: seq<seq<Pixel>>, w: nat, h: nat, red: Pixel -> bool,
                        blocks: seq<Block>, graph: seq<GraphNode>) {
    |graph| == |blocks| &&
    forall i, j :: 0 <= i < |blocks| && 0 <= j < |blocks| ==>
      (blocks[j].name in graph[i].connections <==> i < j && Linked(g, w, h, red, blocks[i].points, blocks[j].points))
  }

  lemma GraphWired(g: seq<seq<Pixel>>, w: nat, h: nat, green: Pixel -> bool, red: Pixel -> bool,
                   blocks: seq<Block>, owner: map<Point, int>, graph: seq<GraphNode>)
    requires Numbered(blocks) && Owns(g, w, h, green, owner, Parts(blocks))
    requires |graph| == |blocks|
    requires forall i :: 0 <= i < |blocks| ==> NodeOf(g, w, h, green, red, blocks, owner, i, graph[i])
    ensures Wired(g, w, h, red, blocks, graph)
  {
    forall i, j | 0 <= i < |blocks| && 0 <= j < |blocks|
      ensures blocks[j].name in graph[i].connections <==> i < j && Linked(g, w, h, red, blocks[i].points, blocks[j].points)
    {
      ReachedIsLinked(g, w, h, green, red, owner, Parts(blocks), blocks[i].points, i, j);
      if blocks[j].name in graph[i].connections {
        var t :| 0 <= t < |blocks| && t > blocks[i].id && blocks[t].name == blocks[j].name &&
                 Reached(g, w, h, green, red, owner, blocks[i].points, blocks[i].id, t);
        if t != j {
          NumberedNamesDistinct(blocks, t, j);
        }
      }
    }
  }

  /** Each pair of blocks joined by a corridor is recorded once, on the side of the
      smaller id; no block is connected to itself. */
  lemma PairRecordedOnce(g: seq<seq<Pixel>>, w: nat, h: nat, red: Pixel -> bool,
                         blocks: seq<Block>, graph: seq<GraphNode>, i: int, j: int)
    requires Wired(g, w, h, red, blocks, graph)
    requires 0 <= i < |blocks| && 0 <= j < |blocks|
    ensures blocks[i].name !in graph[i].connections
    ensures i < j ==> blocks[i].name !in graph[j].connections
    ensures i < j ==> (blocks[j].name in graph[i].connections <==>
                       Linked(g, w, h, red, blocks[i].points, blocks[j].points) ||
                       Linked(g, w, h, red, blocks[j].points, blocks[i].points))
  {
    if i < j && Linked(g, w, h, red, blocks[j].points, blocks[i].points) {
      LinkedSymmetric(g, w, h, red, blocks[j].points, blocks[i].points);
    }
  }

  // The steps after labelling, common to both programs.

  /** Re-ordering blocks that are disjoint and non-empty keeps them disjoint. */
  lemma PermutedDisjoint(s: seq<Block>, r: seq<Block>)
    requires multiset(r) == multiset(s)
    requires BlocksDisjoint(s) && forall k :: 0 <= k < |s| ==> |s[k].points| > 0
    ensures BlocksDisjoint(r)
  {
    forall k, l, q | 0 <= k < l < |r| && q in r[k].points ensures q !in r[l].points {
      assert r[k] in multiset(s) && r[l] in multiset(s);
      var a :| 0 <= a < |s| && s[a] == r[k];
      var b :| 0 <= b < |s| && s[b] == r[l];
      if a == b {
        MultisetTwice(r, k, l);
        forall x, y | 0 <= x < y < |s| ensures s[x] != s[y] {
          assert s[x].points[0] in s[x].points;
        }
        NoDupsMultiset(s, r[k]);
        assert false;
      }
    }
  }

  /** Blocks found by labelling: their cells are the components, which partition the
      green cells. */
  ghost predicate FoundBlocks(g: seq<seq<Pixel>>, w: nat, h: nat, green: Pixel -> bool, found: seq<Block>) {
    Partition(g, w, h, green, Parts(found))
  }

  lemma PartitionBlocks(g: seq<seq<Pixel>>, w: nat, h: nat, green: Pixel -> bool, found: seq<Block>)
    requires FoundBlocks(g, w, h, green, found)
    ensures BlocksDisjoint(found)
    ensures forall k :: 0 <= k < |found| ==> IsComponent(g, w, h, green, found[k].points)
  {
    var ps := Parts(found);
    forall k | 0 <= k < |found| ensures IsComponent(g, w, h, green, found[k].points) {
      assert ps[k] == found[k].points;
    }
    forall k, l, q | 0 <= k < l < |found| && q in found[k].points ensures q !in found[l].points {
      assert ps[k] == found[k].points && ps[l] == found[l].points;
    }
  }

  lemma PartsDisjoint(r: seq<Block>)
    requires BlocksDisjoint(r)
    ensures Disjoint(Parts(r))
  {
    var ps := Parts(r);
    forall k, l, q | 0 <= k < l < |r| && q in ps[k] ensures q !in ps[l] {
      assert ps[k] == r[k].points && ps[l] == r[l].points;
    }
  }

  lemma PermutedComponents(g: seq<seq<Pixel>>, w: nat, h: nat, green: Pixel -> bool, s: seq<Block>, r: seq<Block>)
    requires multiset(r) == multiset(s)
    requires forall k :: 0 <= k < |s| ==> IsComponent(g, w, h, green, s[k].points)
    ensures AllComponents(g, w, h, green, Parts(r))
  {
    var ps := Parts(r);
    forall k | 0 <= k < |r| ensures IsComponent(g, w, h, green, ps[k]) {
      assert r[k] in multiset(s);
      assert ps[k] == r[k].points;
    }
  }

  lemma PermutedCovers(g: seq<seq<Pixel>>, w: nat, h: nat, green: Pixel -> bool, s: seq<Block>, r: seq<Block>)
    requires multiset(r) == multiset(s)
    requires forall q :: Member(g, w, h, green, q) ==> exists k :: 0 <= k < |Parts(s)| && q in Parts(s)[k]
    ensures forall q :: Member(g, w, h, green, q) ==> exists k :: 0 <= k < |Parts(r)| && q in Parts(r)[k]
  {
    var ps := Parts(r);
    forall q | Member(g, w, h, green, q) ensures exists k :: 0 <= k < |ps| && q in ps[k] {
      var a :| 0 <= a < |Parts(s)| && q in Parts(s)[a];
      assert s[a] in multiset(r);
      var k :| 0 <= k < |r| && r[k] == s[a];
      assert q in ps[k];
    }
  }

  /** Sorting the found blocks by centre keeps them a partition of the green cells. */
  lemma SortedPartition(g: seq<seq<Pixel>>, w: nat, h: nat, green: Pixel -> bool, found: seq<Block>)
    requires FoundBlocks(g, w, h, green, found)
    ensures FoundBlocks(g, w, h, green, SortByCentre(found))
  {
    var r := SortByCentre(found);
    SortByCentrePermutes(found);
    PartitionBlocks(g, w, h, green, found);
    forall k | 0 <= k < |found| ensures |found[k].points| > 0 {
      assert IsComponent(g, w, h, green, found[k].points);
    }
    PermutedDisjoint(found, r);
    PartsDisjoint(r);
    PermutedComponents(g, w, h, green, found, r);
    PermutedCovers(g, w, h, green, found, r);
  }

  /** Renaming keeps the cells, so it keeps the partition. */
  lemma RenamedPartition(g: seq<seq<Pixel>>, w: nat, h: nat, green: Pixel -> bool, s: seq<Block>, r: seq<Block>)
    requires FoundBlocks(g, w, h, green, s)
    requires |r| == |s| && forall i :: 0 <= i < |s| ==> r[i].points == s[i].points
    ensures FoundBlocks(g, w, h, green, r)
  {
    assert Parts(r) == Parts(s);
  }

  /** The graph lists one node per block, in block order, with the block's name and
      centre and its connections in strictly increasing dictionary order. */
  predicate Records(blocks: seq<Block>, graph: seq<GraphNode>) {
    && |graph| == |blocks|
    && (forall i :: 0 <= i < |blocks| ==> graph[i].name == blocks[i].name && graph[i].center == blocks[i].center)
    && (forall i, a, b :: 0 <= i < |graph| && 0 <= a < b < |graph[i].connections| ==>
          LexLess(graph[i].connections[a], graph[i].connections[b]))
  }

  lemma GraphRecords(g: seq<seq<Pixel>>, w: nat, h: nat, green: Pixel -> bool, red: Pixel -> bool,
                     blocks: seq<Block>, owner: map<Point, int>, graph: seq<GraphNode>)
    requires Numbered(blocks) && |graph| == |blocks|
    requires forall i :: 0 <= i < |blocks| ==> NodeOf(g, w, h, green, red, blocks, owner, i, graph[i])
    ensures Records(blocks, graph)
  {
    forall a, b | 0 <= a < b < |blocks| ensures blocks[a].name != blocks[b].name {
      NumberedNamesDistinct(blocks, a, b);
    }
    forall i, a, b | 0 <= i < |graph| && 0 <= a < b < |graph[i].connections|
      ensures LexLess(graph[i].connections[a], graph[i].connections[b])
    {
      assert NodeOf(g, w, h, green, red, blocks, owner, i, graph[i]);
    }
  }

  /** blocks are the sorted found blocks with new ids and names: same cells, same centres. */
  predicate Renumbered(sorted: seq<Block>, blocks: seq<Block>) {
    |blocks| == |sorted| &&
    forall i :: 0 <= i < |blocks| ==> blocks[i].points == sorted[i].points && blocks[i].center == sorted[i].center
  }

  /** Name the sorted blocks, map cells to blocks and build the graph. */
  method Wire(g: seq<seq<Pixel>>, w: nat, h: nat, green: Pixel -> bool, red: Pixel -> bool, blocks: seq<Block>)
    returns (graph: seq<GraphNode>)
    requires Fits(g, w, h)
    requires forall p :: green(p) ==> !red(p)
    requires FoundBlocks(g, w, h, green, blocks) && Numbered(blocks)
    ensures Wired(g, w, h, red, blocks, graph) && Records(blocks, graph)
  {
    PartitionBlocks(g, w, h, green, blocks);
    var owner := IndexPoints(blocks);
    IndexOwns(g, w, h, green, blocks, owner);
    graph := BuildGraph(g, w, h, green, red, blocks, owner);
    GraphWired(g, w, h, green, red, blocks, owner, graph);
    GraphRecords(g, w, h, green, red, blocks, owner, graph);
  }

  /** Sort the blocks by centre, renumber and name them, map cells to blocks and build the graph. */
  method Connect(g: seq<seq<Pixel>>, w: nat, h: nat, green: Pixel -> bool, red: Pixel -> bool, found: seq<Block>)
    returns (r: Result<seq<GraphNode>>, blocks: seq<Block>)
    requires Fits(g, w, h)
    requires forall p :: green(p) ==> !red(p)
    requires FoundBlocks(g, w, h, green, found)
    ensures r.Ok? <==> |found| <= 702
    ensures r.Err? ==> r.error == IndexOutOfRange
    ensures Renumbered(SortByCentre(found), blocks)
    ensures FoundBlocks(g, w, h, green, blocks)
    ensures r.Ok? ==> Numbered(blocks) && Wired(g, w, h, red, blocks, r.value) && Records(blocks, r.value)
  {
    var sorted := SortByCentre(found);
    SortedPartition(g, w, h, green, found);
    blocks := sorted;
    var named := AssignNames(sorted);
    if named.Err? {
      return Err(named.error), blocks;
    }
    blocks := named.value;
    RenamedPartition(g, w, h, green, sorted, blocks);
    var graph := Wire(g, w, h, green, red, blocks);
    r := Ok(graph);
  }

  /** Renumbering keeps the centres, hence the order by centre. */
  lemma RenumberedSorted(sorted: seq<Block>, blocks: seq<Block>)
    requires Renumbered(sorted, blocks) && CentreSorted(sorted)
    ensures CentreSorted(blocks)
  {
    forall i, j | 0 <= i < j < |blocks| ensures KeyLeq(blocks[i].center, blocks[j].center) {
      assert blocks[i].center == sorted[i].center && blocks[j].center == sorted[j].center;
    }
  }
}
