/** Estimating the square size of a grid picture from runs of matching pixels
    (detect_grid_size): three rows and three columns are cut into runs, each pixel
    extending the run of the pixel before it when no channel differs by 10 or more;
    the most common long run across and down gives the square's width and height. */
module AnalyzeImage {
  import opened Grid
  import opened Sampling

  function Abs(n: int): nat {
    if n < 0 then -n else n
  }

  /** Two pixels match when every channel differs by less than 10. */
  predicate Similar(p: Pixel, q: Pixel) {
    Abs(p.r - q.r) < 10 && Abs(p.g - q.g) < 10 && Abs(p.b - q.b) < 10
  }

  // Runs.

  /** No run is empty. */
  predicate Positive(s: seq<nat>) {
    forall i :: 0 <= i < |s| ==> s[i] >= 1
  }

  /** The runs of a line, left to right: the lengths of its maximal stretches in which
      every pixel matches the one before it. */
  function Runs(line: seq<Pixel>): (runs: seq<nat>)
    ensures |runs| > 0 <==> |line| > 0
    ensures Positive(runs)
  {
    if |line| <= 1 then (if line == [] then [] else [1])
    else Extend(Runs(line[..|line| - 1]), Similar(line[|line| - 1], line[|line| - 2]))
  }

  /** The runs after one more pixel: the last run grows when the pixel is similar to the
      one before it; otherwise a new run of one starts. */
  function Extend(rs: seq<nat>, same: bool): (r: seq<nat>)
    requires |rs| > 0
    ensures |r| > 0 && (Positive(rs) ==> Positive(r))
  {
    if same then rs[..|rs| - 1] + [rs[|rs| - 1] + 1] else rs + [1]
  }

  /** Extending runs whose last one is c. */
  lemma ExtendSnoc(closed: seq<nat>, c: nat, same: bool)
    ensures same ==> Extend(closed + [c], same) == closed + [c + 1]
    ensures !same ==> Extend(closed + [c], same) == (closed + [c]) + [1]
  {
    SnocParts(closed, c);
  }

  function Sum(s: seq<nat>): nat {
    if s == [] then 0 else Sum(s[..|s| - 1]) + s[|s| - 1]
  }

  /** n copies of v. */
  function Repeat(v: nat, n: nat): (r: seq<nat>)
    ensures |r| == n
  {
    if n == 0 then [] else Repeat(v, n - 1) + [v]
  }

  /** Each pixel tagged with the number of the run it belongs to. */
  function Labels(runs: seq<nat>): (tags: seq<nat>)
    ensures |tags| == Sum(runs)
  {
    if runs == [] then [] else Labels(runs[..|runs| - 1]) + Repeat(|runs| - 1, runs[|runs| - 1])
  }

  /** tags numbers the maximal matching stretches of line: the first pixel is in run 0,
      and the number goes up by one exactly where a pixel does not match the one before. */
  predicate Tagged(line: seq<Pixel>, tags: seq<nat>) {
    |tags| == |line| &&
    (|line| > 0 ==> tags[0] == 0) &&
    forall i :: 0 < i < |line| ==>
      (Similar(line[i], line[i - 1]) ==> tags[i] == tags[i - 1]) &&
      (!Similar(line[i], line[i - 1]) ==> tags[i] == tags[i - 1] + 1)
  }

  lemma RepeatSnoc(v: nat, n: nat)
    ensures Repeat(v, n + 1) == Repeat(v, n) + [v]
  {
  }

  /** Labels of one more run: its number repeated as often as the run is long. */
  lemma LabelsSnoc(front: seq<nat>, last: nat)
    ensures Labels(front + [last]) == Labels(front) + Repeat(|front|, last)
  {
    assert (front + [last])[..|front|] == front;
  }

  /** Growing the last run by one tags one more pixel with its number. */
  lemma LabelsGrow(front: seq<nat>, last: nat)
    ensures Labels(front + [last + 1]) == Labels(front + [last]) + [|front|]
  {
    LabelsSnoc(front, last + 1);
    LabelsSnoc(front, last);
    RepeatSnoc(|front|, last);
    Associative(Labels(front), Repeat(|front|, last), [|front|]);
  }

  lemma Unsnoc<T>(s: seq<T>)
    requires |s| > 0
    ensures s == s[..|s| - 1] + [s[|s| - 1]]
  {
  }

  lemma Associative<T>(a: seq<T>, b: seq<T>, c: seq<T>)
    ensures a + (b + c) == a + b + c
  {
  }

  /** A new run of one tags one more pixel with a new number. */
  lemma LabelsNew(runs: seq<nat>)
    ensures Labels(runs + [1]) == Labels(runs) + [|runs|]
  {
    LabelsSnoc(runs, 1);
    RepeatSnoc(|runs|, 0);
  }

  /** One more pixel adds one tag: the last run's number when it is similar to the pixel
      before, the next number otherwise. */
  lemma LabelsExtend(rs: seq<nat>, same: bool)
    requires |rs| > 0
    ensures Labels(Extend(rs, same)) == Labels(rs) + [if same then |rs| - 1 else |rs|]
    ensures |Extend(rs, same)| == |rs| + (if same then 0 else 1)
  {
    if same {
      var front, last := rs[..|rs| - 1], rs[|rs| - 1];
      Unsnoc(rs);
      LabelsGrow(front, last);
    } else {
      LabelsNew(rs);
    }
  }

  lemma LabelsStep(line: seq<Pixel>)
    requires |line| > 1
    ensures Labels(Runs(line)) == Labels(Runs(line[..|line| - 1])) +
              [if Similar(line[|line| - 1], line[|line| - 2]) then |Runs(line[..|line| - 1])| - 1
               else |Runs(line[..|line| - 1])|]
    ensures |Runs(line)| == |Runs(line[..|line| - 1])| + (if Similar(line[|line| - 1], line[|line| - 2]) then 0 else 1)
  {
    LabelsExtend(Runs(line[..|line| - 1]), Similar(line[|line| - 1], line[|line| - 2]));
  }

  /** Tagging extends by one pixel. */
  lemma TaggedStep(line: seq<Pixel>, tags: seq<nat>, t: nat)
    requires |line| > 1 && Tagged(line[..|line| - 1], tags)
    requires t == tags[|line| - 2] + (if Similar(line[|line| - 1], line[|line| - 2]) then 0 else 1)
    ensures Tagged(line, tags + [t])
  {
    var n := |line|;
    var all := tags + [t];
    forall i | 0 < i < n
      ensures Similar(line[i], line[i - 1]) ==> all[i] == all[i - 1]
      ensures !Similar(line[i], line[i - 1]) ==> all[i] == all[i - 1] + 1
    {
      if i < n - 1 {
        assert line[i] == line[..n - 1][i] && line[i - 1] == line[..n - 1][i - 1];
      }
    }
  }

  /** The runs of a line are positive, add up to its length and are exactly its maximal
      stretches of matching pixels. */
  lemma {:induction false} RunsSplit(line: seq<Pixel>)
    ensures Positive(Runs(line))
    ensures Sum(Runs(line)) == |line|
    ensures Tagged(line, Labels(Runs(line)))
    ensures |line| > 0 ==> Labels(Runs(line))[|line| - 1] == |Runs(line)| - 1
  {
    if |line| == 1 {
      assert Labels([1]) == Labels([]) + [0];
    } else if |line| > 1 {
      var front := line[..|line| - 1];
      RunsSplit(front);
      LabelsStep(line);
      var tags := Labels(Runs(front));
      TaggedStep(line, tags, Labels(Runs(line))[|line| - 1]);
    }
  }

  /** The run lengths above 1, in order. */
  function Long(runs: seq<nat>): (long: seq<nat>)
    ensures |long| <= |runs|
  {
    if runs == [] then []
    else Long(runs[..|runs| - 1]) + (if runs[|runs| - 1] > 1 then [runs[|runs| - 1]] else [])
  }

  /** The run lengths recorded for a line. */
  function Recorded(line: seq<Pixel>): seq<nat> {
    Long(Runs(line))
  }

  lemma {:induction false} LongBounds(runs: seq<nat>)
    ensures forall i :: 0 <= i < |Long(runs)| ==> Long(runs)[i] > 1 && Long(runs)[i] in runs
    ensures Sum(Long(runs)) <= Sum(runs)
  {
    if runs != [] {
      var front := runs[..|runs| - 1];
      LongBounds(front);
      var l := Long(runs);
      if runs[|runs| - 1] > 1 {
        assert l[..|l| - 1] == Long(front);
      } else {
        assert l == Long(front);
      }
      forall i | 0 <= i < |l| ensures l[i] > 1 && l[i] in runs {
        if i < |Long(front)| {
          assert l[i] == Long(front)[i];
          assert l[i] in front;
        }
      }
    }
  }

  lemma {:induction false} SumBound(s: seq<nat>, i: int)
    requires 0 <= i < |s|
    ensures s[i] <= Sum(s)
  {
    if i < |s| - 1 {
      SumBound(s[..|s| - 1], i);
    }
  }

  /** Every recorded run is at least 2 and at most the line's length, and together they
      take up at most the whole line. */
  lemma RecordedBounds(line: seq<Pixel>)
    ensures forall i :: 0 <= i < |Recorded(line)| ==> 2 <= Recorded(line)[i] <= |line|
    ensures Sum(Recorded(line)) <= |line|
  {
    RunsSplit(line);
    LongBounds(Runs(line));
    var rec := Recorded(line);
    forall i | 0 <= i < |rec| ensures rec[i] <= |line| {
      var j :| 0 <= j < |Runs(line)| && Runs(line)[j] == rec[i];
      SumBound(Runs(line), j);
    }
  }

  /** Matching is against the previous pixel, not the run's first: channel values 0, 9
      and 18 form one run of 3 although the first and last pixels do not match. */
  lemma DriftingRun()
    ensures Runs([Pixel(0, 0, 0), Pixel(9, 0, 0), Pixel(18, 0, 0)]) == [3]
    ensures !Similar(Pixel(0, 0, 0), Pixel(18, 0, 0))
  {
    var line := [Pixel(0, 0, 0), Pixel(9, 0, 0), Pixel(18, 0, 0)];
    assert line[..2][..1] == [Pixel(0, 0, 0)];
    assert Runs(line[..2]) == [2];
  }

  /** One scan of a line: current_run grows while pixels match and is recorded, when
      above 1, at each mismatch and at the end. */
  method RunLengths(line: seq<Pixel>) returns (runs: seq<nat>)
    ensures runs == Recorded(line)
  {
    runs := [];
    if |line| == 0 {
      return;
    }
    var currentRun := 1;
    ghost var closed: seq<nat> := [];
    var x := 1;
    while x < |line|
      invariant 1 <= x <= |line|
      invariant Runs(line[..x]) == closed + [currentRun]
      invariant runs == Long(closed)
    {
      RunsNext(line, x, closed, currentRun);
      if Similar(line[x], line[x - 1]) {
        currentRun := currentRun + 1;
      } else {
        if currentRun > 1 {
          runs := runs + [currentRun];
        }
        LongSnoc(closed, currentRun);
        closed := closed + [currentRun];
        currentRun := 1;
      }
      x := x + 1;
    }
    assert line[..x] == line;
    LongSnoc(closed, currentRun);
    if currentRun > 1 {
      runs := runs + [currentRun];
    }
  }

  /** One more pixel either lengthens the open run or closes it and opens a run of one. */
  lemma RunsNext(line: seq<Pixel>, x: int, closed: seq<nat>, currentRun: nat)
    requires 1 <= x < |line| && Runs(line[..x]) == closed + [currentRun]
    ensures Similar(line[x], line[x - 1]) ==> Runs(line[..x + 1]) == closed + [currentRun + 1]
    ensures !Similar(line[x], line[x - 1]) ==> Runs(line[..x + 1]) == (closed + [currentRun]) + [1]
  {
    PrefixStep(line, x);
    ExtendSnoc(closed, currentRun, Similar(line[x], line[x - 1]));
  }

  lemma PrefixStep<T>(s: seq<T>, x: nat)
    requires 0 < x < |s|
    ensures |s[..x + 1]| == x + 1
    ensures s[..x + 1][..x] == s[..x] && s[..x + 1][x] == s[x] && s[..x + 1][x - 1] == s[x - 1]
  {
  }

  lemma SnocParts<T>(a: seq<T>, v: T)
    ensures (a + [v])[..|a|] == a && (a + [v])[|a|] == v
  {
  }

  /** Closing a run records it when it is longer than one. */
  lemma LongSnoc(closed: seq<nat>, run: nat)
    ensures Long(closed + [run]) == Long(closed) + (if run > 1 then [run] else [])
  {
    assert (closed + [run])[..|closed|] == closed;
  }

  // Counting run lengths: collections.Counter and its most_common.

  /** A run length and how often it was recorded. */
  datatype Common = Common(run: nat, count: nat)

  function Keys(t: seq<Common>): (ks: seq<nat>)
    ensures |ks| == |t|
    ensures forall i :: 0 <= i < |t| ==> ks[i] == t[i].run
  {
    if t == [] then [] else Keys(t[..|t| - 1]) + [t[|t| - 1].run]
  }

  /** The position of the first k in list, or |list| when there is none. */
  function First(list: seq<nat>, k: nat): (i: nat)
    ensures i <= |list|
    ensures i < |list| <==> k in list
    ensures i < |list| ==> list[i] == k
    ensures forall j :: 0 <= j < i ==> list[j] != k
  {
    if list == [] then 0 else if list[0] == k then 0 else 1 + First(list[1..], k)
  }

  /** Counting one more k: its entry goes up by one; a new key is added last. */
  function Bump(t: seq<Common>, k: nat): (r: seq<Common>)
  {
    if t == [] then [Common(k, 1)]
    else if t[0].run == k then [Common(k, t[0].count + 1)] + t[1..]
    else [t[0]] + Bump(t[1..], k)
  }

  /** The counter of a list, its keys in order of first occurrence. */
  function Tally(list: seq<nat>): seq<Common> {
    if list == [] then [] else Bump(Tally(list[..|list| - 1]), list[|list| - 1])
  }

  predicate DistinctKeys(t: seq<Common>) {
    forall i, j :: 0 <= i < j < |t| ==> t[i].run != t[j].run
  }

  /** t counts list: one entry per distinct element, with its number of occurrences, in
      the order the elements first occur. */
  ghost predicate Counted(list: seq<nat>, t: seq<Common>) {
    DistinctKeys(t) &&
    (forall i :: 0 <= i < |t| ==> t[i].count == multiset(list)[t[i].run]) &&
    (forall k :: k in list <==> k in Keys(t)) &&
    FirstOrdered(list, t)
  }

  /** The keys of t come in the order they first occur in list. */
  predicate FirstOrdered(list: seq<nat>, t: seq<Common>) {
    forall i, j :: 0 <= i < j < |t| ==> First(list, t[i].run) < First(list, t[j].run)
  }

  /** Counting a key already at position m adds one to that entry alone. */
  lemma {:induction false} BumpOld(t: seq<Common>, k: nat, m: nat)
    requires DistinctKeys(t) && m < |t| && t[m].run == k
    ensures |Bump(t, k)| == |t|
    ensures forall i :: 0 <= i < |t| ==> Bump(t, k)[i].run == t[i].run
    ensures forall i :: 0 <= i < |t| ==> Bump(t, k)[i].count == t[i].count + (if t[i].run == k then 1 else 0)
  {
    if t[0].run != k {
      assert DistinctKeys(t[1..]) by {
        forall i, j | 0 <= i < j < |t| - 1 ensures t[1..][i].run != t[1..][j].run {
          assert t[1..][i] == t[i + 1] && t[1..][j] == t[j + 1];
        }
      }
      BumpOld(t[1..], k, m - 1);
      var r := Bump(t, k);
      forall i | 0 <= i < |t|
        ensures r[i].run == t[i].run
        ensures r[i].count == t[i].count + (if t[i].run == k then 1 else 0)
      {
        if i > 0 {
          assert r[i] == Bump(t[1..], k)[i - 1] && t[i] == t[1..][i - 1];
        }
      }
    }
  }

  lemma {:induction false} BumpNew(t: seq<Common>, k: nat)
    requires k !in Keys(t)
    ensures Bump(t, k) == t + [Common(k, 1)]
  {
    if t != [] {
      assert t[0].run == Keys(t)[0];
      assert k !in Keys(t[1..]) by {
        forall i | 0 <= i < |t| - 1 ensures Keys(t[1..])[i] != k {
          assert Keys(t)[i + 1] == t[i + 1].run;
        }
      }
      BumpNew(t[1..], k);
      assert t == [t[0]] + t[1..];
    }
  }

  /** Appending to a list leaves the first positions of its elements as they were. */
  lemma FirstAppend(front: seq<nat>, x: nat, y: nat)
    ensures y in front ==> First(front + [x], y) == First(front, y)
    ensures y !in front && y == x ==> First(front + [x], y) == |front|
  {
    var list: seq<nat> := front + [x];
    if y in front {
      assert list[First(front, y)] == y;
    }
  }

  lemma CountAppend(front: seq<nat>, x: nat, y: nat)
    ensures multiset(front + [x])[y] == multiset(front)[y] + (if y == x then 1 else 0)
    ensures y in front + [x] <==> y in front || y == x
  {
  }

  /** When r has t's keys and each count is the old one plus the new occurrence, r counts
      front + [x] as t counts front. */
  lemma CountedSameKeys(front: seq<nat>, x: nat, t: seq<Common>, r: seq<Common>)
    requires Counted(front, t) && x in front
    requires |r| == |t| && forall i :: 0 <= i < |t| ==> r[i].run == t[i].run
    requires forall i :: 0 <= i < |t| ==> r[i].count == t[i].count + (if t[i].run == x then 1 else 0)
    ensures Counted(front + [x], r)
  {
    var list: seq<nat> := front + [x];
    assert Keys(r) == Keys(t);
    forall i: nat | i < |r| ensures r[i].count == multiset(list)[r[i].run] {
      CountAppend(front, x, r[i].run);
    }
    forall y ensures y in list <==> y in Keys(r) {
      CountAppend(front, x, y);
    }
    forall i, j | 0 <= i < j < |r| ensures First(list, r[i].run) < First(list, r[j].run) {
      FirstAppend(front, x, t[i].run);
      FirstAppend(front, x, t[j].run);
    }
  }

  /** With a new element counted once at the end, r counts front + [x]. */
  lemma CountedNewKey(front: seq<nat>, x: nat, t: seq<Common>)
    requires Counted(front, t) && x !in front
    ensures Counted(front + [x], t + [Common(x, 1)])
  {
    var list: seq<nat> := front + [x];
    var r := t + [Common(x, 1)];
    assert Keys(r) == Keys(t) + [x];
    forall i: nat | i < |r| ensures r[i].count == multiset(list)[r[i].run] {
      CountAppend(front, x, r[i].run);
    }
    forall y ensures y in list <==> y in Keys(r) {
      CountAppend(front, x, y);
    }
    forall i | 0 <= i < |t| ensures t[i].run in front {
      assert Keys(t)[i] == t[i].run;
    }
    FirstOrderedNewKey(front, x, t);
  }

  /** A key not seen before, appended last, comes after every earlier key. */
  lemma FirstOrderedNewKey(front: seq<nat>, x: nat, t: seq<Common>)
    requires FirstOrdered(front, t) && x !in front
    requires forall i :: 0 <= i < |t| ==> t[i].run in front
    ensures FirstOrdered(front + [x], t + [Common(x, 1)])
  {
    var list: seq<nat> := front + [x];
    var r := t + [Common(x, 1)];
    forall i, j | 0 <= i < j < |r| ensures First(list, r[i].run) < First(list, r[j].run) {
      FirstAppend(front, x, r[i].run);
      FirstAppend(front, x, r[j].run);
    }
  }

  /** Tally counts its list. */
  lemma {:induction false} TallyCounts(list: seq<nat>)
    ensures Counted(list, Tally(list))
  {
    if list != [] {
      var front, x := list[..|list| - 1], list[|list| - 1];
      assert list == front + [x];
      TallyCounts(front);
      var t := Tally(front);
      assert Tally(list) == Bump(t, x);
      if x in front {
        var m :| 0 <= m < |t| && Keys(t)[m] == x;
        BumpOld(t, x, m);
        CountedSameKeys(front, x, t, Tally(list));
      } else {
        BumpNew(t, x);
        CountedNewKey(front, x, t);
      }
    }
  }

  /** Puts c in front of the first entry whose count is not above c's. */
  function InsertByCount(c: Common, s: seq<Common>): (r: seq<Common>)
    ensures |r| == |s| + 1
  {
    if s == [] then [c]
    else if s[0].count <= c.count then [c] + s
    else [s[0]] + InsertByCount(c, s[1..])
  }

  /** The entries by count, largest first, equal counts keeping their order: the
      stable `sorted(..., reverse=True)` that `heapq.nlargest` is documented to equal. */
  function Rank(t: seq<Common>): (r: seq<Common>)
    ensures |r| == |t|
  {
    if t == [] then [] else InsertByCount(t[0], Rank(t[1..]))
  }

  /** Counts never go up along s. */
  predicate Descending(s: seq<Common>) {
    forall i, j :: 0 <= i < j < |s| ==> s[i].count >= s[j].count
  }

  /** Entries with equal counts come in the order their keys first occur in list. */
  predicate TiesInOrder(list: seq<nat>, s: seq<Common>) {
    forall i, j :: 0 <= i < j < |s| && s[i].count == s[j].count ==> First(list, s[i].run) < First(list, s[j].run)
  }

  /** `Counter(list).most_common(n)`. */
  function MostCommon(list: seq<nat>, n: nat): (r: seq<Common>) {
    var ranked := Rank(Tally(list));
    ranked[..if n < |ranked| then n else |ranked|]
  }

  /** Inserting puts c after exactly the entries with larger counts. */
  lemma {:induction false} InsertCountShape(c: Common, s: seq<Common>) returns (k: nat)
    ensures k <= |s| && InsertByCount(c, s) == s[..k] + [c] + s[k..]
    ensures forall i :: 0 <= i < k ==> s[i].count > c.count
    ensures k < |s| ==> s[k].count <= c.count
  {
    if s == [] || s[0].count <= c.count {
      k := 0;
    } else {
      var k' := InsertCountShape(c, s[1..]);
      k := k' + 1;
      assert s[..k] == [s[0]] + s[1..][..k'];
      assert s[k..] == s[1..][k'..];
      forall i | 0 <= i < k ensures s[i].count > c.count {
        if i > 0 {
          assert s[i] == s[1..][i - 1];
        }
      }
    }
  }

  lemma {:induction false} RankPermutes(t: seq<Common>)
    ensures multiset(Rank(t)) == multiset(t)
  {
    if t != [] {
      RankPermutes(t[1..]);
      var s := Rank(t[1..]);
      var k := InsertCountShape(t[0], s);
      SplicedMultiset(s, t[0], k);
      ConsMultiset(t);
    }
  }

  lemma SplicedMultiset<T>(s: seq<T>, x: T, k: nat)
    requires k <= |s|
    ensures multiset(s[..k] + [x] + s[k..]) == multiset(s) + multiset{x}
  {
    assert s == s[..k] + s[k..];
  }

  lemma ConsMultiset<T>(t: seq<T>)
    requires |t| > 0
    ensures multiset(t) == multiset{t[0]} + multiset(t[1..])
  {
    assert t == [t[0]] + t[1..];
  }

  lemma {:induction false} RankDescending(t: seq<Common>)
    ensures Descending(Rank(t))
  {
    if t != [] {
      RankDescending(t[1..]);
      var s := Rank(t[1..]);
      var c := t[0];
      var k := InsertCountShape(c, s);
      var r := Rank(t);
      Spliced(s, c, k);
      forall i, j | 0 <= i < j < |r| ensures r[i].count >= r[j].count {
        if i == k && j - 1 > k {
          assert s[k].count >= s[j - 1].count;
        }
      }
    }
  }

  /** The elements of s with x spliced in at position k. */
  lemma Spliced<T>(s: seq<T>, x: T, k: nat)
    requires k <= |s|
    ensures forall i :: 0 <= i < k ==> (s[..k] + [x] + s[k..])[i] == s[i]
    ensures (s[..k] + [x] + s[k..])[k] == x
    ensures forall i :: k < i <= |s| ==> (s[..k] + [x] + s[k..])[i] == s[i - 1]
  {
  }

  /** Inserting an entry whose key occurs before all of s's keys, in front of the first
      entry with a count not above its own, keeps ties in order. */
  lemma InsertStable(list: seq<nat>, c: Common, s: seq<Common>, k: nat)
    requires TiesInOrder(list, s) && k <= |s|
    requires forall i :: 0 <= i < |s| ==> First(list, c.run) < First(list, s[i].run)
    requires forall i :: 0 <= i < k ==> s[i].count > c.count
    ensures TiesInOrder(list, s[..k] + [c] + s[k..])
  {
    var r := s[..k] + [c] + s[k..];
    Spliced(s, c, k);
    forall i, j | 0 <= i < j < |r| && r[i].count == r[j].count
      ensures First(list, r[i].run) < First(list, r[j].run)
    {
      if j > k && i != k {
        var i' := if i < k then i else i - 1;
        assert r[i] == s[i'] && r[j] == s[j - 1];
      }
    }
  }

  /** The entries after the first of t have keys first occurring after its key. */
  lemma RestAfterFirst(list: seq<nat>, t: seq<Common>, s: seq<Common>)
    requires FirstOrdered(list, t) && |t| > 0 && multiset(s) == multiset(t[1..])
    ensures forall i :: 0 <= i < |s| ==> First(list, t[0].run) < First(list, s[i].run)
  {
    forall i | 0 <= i < |s| ensures First(list, t[0].run) < First(list, s[i].run) {
      assert s[i] in multiset(t[1..]);
      var m :| 0 <= m < |t[1..]| && t[1..][m] == s[i];
      assert t[m + 1] == s[i];
    }
  }

  /** Entries already in first-occurrence order keep that order among equal counts. */
  lemma {:induction false} RankStable(list: seq<nat>, t: seq<Common>)
    requires FirstOrdered(list, t)
    ensures TiesInOrder(list, Rank(t))
  {
    if t != [] {
      assert FirstOrdered(list, t[1..]);
      RankStable(list, t[1..]);
      RankPermutes(t[1..]);
      var s := Rank(t[1..]);
      var k := InsertCountShape(t[0], s);
      RestAfterFirst(list, t, s);
      InsertStable(list, t[0], s, k);
    }
  }

  /** The ranked counter holds each element of list once, with its number of occurrences. */
  lemma RankedCounts(list: seq<nat>)
    ensures forall i :: 0 <= i < |Rank(Tally(list))| ==>
              Rank(Tally(list))[i].run in list &&
              Rank(Tally(list))[i].count == multiset(list)[Rank(Tally(list))[i].run]
    ensures DistinctKeys(Rank(Tally(list)))
  {
    var t := Tally(list);
    var r := Rank(t);
    TallyCounts(list);
    RankPermutes(t);
    forall i | 0 <= i < |r| ensures r[i].run in list && r[i].count == multiset(list)[r[i].run] {
      assert r[i] in multiset(t);
      var m :| 0 <= m < |t| && t[m] == r[i];
      assert Keys(t)[m] == r[i].run;
    }
    forall i, j | 0 <= i < j < |r| ensures r[i].run != r[j].run {
      if r[i].run == r[j].run {
        MultisetTwice(r, i, j);
        assert NoDups(t);
        NoDupsMultiset(t, r[i]);
        assert false;
      }
    }
  }

  /** Every element of list has its entry in the ranked counter. */
  lemma RankedHas(list: seq<nat>, k: nat) returns (p: nat)
    requires k in list
    ensures p < |Rank(Tally(list))| && Rank(Tally(list))[p].run == k
  {
    var t := Tally(list);
    var r := Rank(t);
    TallyCounts(list);
    RankPermutes(t);
    var m :| 0 <= m < |t| && Keys(t)[m] == k;
    assert t[m] in multiset(r);
    p :| 0 <= p < |r| && r[p] == t[m];
  }

  /** A prefix of the ranked counter keeps its entries and their order. */
  lemma RankedPrefix(list: seq<nat>, ranked: seq<Common>, m: nat)
    requires m <= |ranked|
    requires forall i :: 0 <= i < |ranked| ==> ranked[i].run in list && ranked[i].count == multiset(list)[ranked[i].run]
    requires DistinctKeys(ranked) && Descending(ranked) && TiesInOrder(list, ranked)
    ensures forall i :: 0 <= i < m ==> ranked[..m][i].run in list && ranked[..m][i].count == multiset(list)[ranked[..m][i].run]
    ensures DistinctKeys(ranked[..m]) && Descending(ranked[..m]) && TiesInOrder(list, ranked[..m])
  {
    var r := ranked[..m];
    assert forall i :: 0 <= i < m ==> r[i] == ranked[i];
  }

  /** Cutting a ranking after n entries: an entry the cut leaves out means n were kept,
      each counting at least as often and, on equal counts, occurring first in list. */
  lemma CutOf(list: seq<nat>, ranked: seq<Common>, n: nat, p: nat)
    requires p < |ranked| && Descending(ranked) && TiesInOrder(list, ranked)
    requires ranked[p].run !in Keys(ranked[..if n < |ranked| then n else |ranked|])
    ensures var r := ranked[..if n < |ranked| then n else |ranked|];
      |r| == n &&
      forall i :: 0 <= i < n ==>
        ranked[p].count <= r[i].count &&
        (r[i].count == ranked[p].count ==> First(list, r[i].run) < First(list, ranked[p].run))
  {
    var r := ranked[..if n < |ranked| then n else |ranked|];
    forall i | 0 <= i < |r|
      ensures ranked[p].count <= r[i].count
      ensures r[i].count == ranked[p].count ==> First(list, r[i].run) < First(list, ranked[p].run)
    {
      assert r[i] == ranked[i];
    }
  }

  /** What `most_common(n)` returns: at most n entries, each a recorded value with its
      number of occurrences, no value twice, counts never going up, equal counts in
      first-occurrence order. Which values it keeps is `MostCommonCut`. */
  lemma MostCommonSpec(list: seq<nat>, n: nat)
    ensures |MostCommon(list, n)| <= n
    ensures forall i :: 0 <= i < |MostCommon(list, n)| ==>
              MostCommon(list, n)[i].run in list &&
              MostCommon(list, n)[i].count == multiset(list)[MostCommon(list, n)[i].run]
    ensures DistinctKeys(MostCommon(list, n))
    ensures Descending(MostCommon(list, n))
    ensures TiesInOrder(list, MostCommon(list, n))
  {
    var t := Tally(list);
    var ranked := Rank(t);
    var r := MostCommon(list, n);
    RankedCounts(list);
    RankDescending(t);
    TallyCounts(list);
    RankStable(list, t);
    RankedPrefix(list, ranked, |r|);
  }

  /** The cut at n: a value left out of `most_common(n)` is left out only when n entries
      were kept, occurs no more often than any kept one, and occurs first after every kept
      one with the same count, so ties at the cut keep the first-encountered values. */
  lemma MostCommonCut(list: seq<nat>, n: nat)
    ensures forall k :: k in list && k !in Keys(MostCommon(list, n)) ==>
              |MostCommon(list, n)| == n &&
              forall i :: 0 <= i < n ==>
                multiset(list)[k] <= MostCommon(list, n)[i].count &&
                (MostCommon(list, n)[i].count == multiset(list)[k] ==> First(list, MostCommon(list, n)[i].run) < First(list, k))
  {
    var t := Tally(list);
    var ranked := Rank(t);
    RankedCounts(list);
    RankDescending(t);
    TallyCounts(list);
    RankStable(list, t);
    forall k | k in list && k !in Keys(MostCommon(list, n))
      ensures |MostCommon(list, n)| == n && forall i :: 0 <= i < n ==>
                multiset(list)[k] <= MostCommon(list, n)[i].count &&
                (MostCommon(list, n)[i].count == multiset(list)[k] ==> First(list, MostCommon(list, n)[i].run) < First(list, k))
    {
      var p := RankedHas(list, k);
      CutOf(list, ranked, n, p);
    }
  }

  // The estimate.

  /** The run lengths above 5 among the common ones, in order: `[k for k, v in common if k > 5]`. */
  function Significant(common: seq<Common>): (ks: seq<nat>)
    ensures forall i :: 0 <= i < |ks| ==> ks[i] > 5
  {
    if common == [] then []
    else (if common[0].run > 5 then [common[0].run] else []) + Significant(common[1..])
  }

  /** The first significant run length, or 1 when there is none. */
  function SquareEstimate(common: seq<Common>): nat {
    var sig := Significant(common);
    if |sig| > 0 then sig[0] else 1
  }

  lemma {:induction false} NoneSignificant(common: seq<Common>)
    ensures |Significant(common)| == 0 <==> forall i :: 0 <= i < |common| ==> common[i].run <= 5
  {
    if common != [] {
      NoneSignificant(common[1..]);
      forall i | 0 < i < |common| ensures common[i] == common[1..][i - 1] {
      }
    }
  }

  /** Where the first significant run length sits among the common ones. */
  lemma {:induction false} FirstSignificant(common: seq<Common>) returns (i: nat)
    requires |Significant(common)| > 0
    ensures i < |common| && common[i].run == Significant(common)[0]
    ensures forall j :: 0 <= j < i ==> common[j].run <= 5
  {
    if common[0].run > 5 {
      i := 0;
    } else {
      assert Significant(common) == Significant(common[1..]);
      var i' := FirstSignificant(common[1..]);
      i := i' + 1;
      forall j | 0 < j < i ensures common[j] == common[1..][j - 1] {
      }
    }
  }

  /** The estimate is 1 exactly when no common run is above 5; otherwise it is the first
      common run above 5. Either way it is at least 1, so the grid size divides by it. */
  lemma EstimateSpec(common: seq<Common>)
    ensures SquareEstimate(common) >= 1
    ensures SquareEstimate(common) == 1 <==> forall i :: 0 <= i < |common| ==> common[i].run <= 5
    ensures SquareEstimate(common) != 1 ==>
              exists i :: 0 <= i < |common| && common[i].run == SquareEstimate(common) &&
                forall j :: 0 <= j < i ==> common[j].run <= 5
  {
    NoneSignificant(common);
    if |Significant(common)| > 0 {
      var i := FirstSignificant(common);
    }
  }

  // The scanned lines.

  /** The rows of a picture of this height, or the columns of one of this width, that are
      scanned: a quarter, half and three quarters of the way across. */
  function Positions(size: nat): seq<nat> {
    [size / 4, size / 2, 3 * size / 4]
  }

  lemma PositionsInside(size: nat)
    requires size > 0
    ensures forall i :: 0 <= i < |Positions(size)| ==> Positions(size)[i] < size
  {
  }

  /** The pixels of row y, left to right. */
  function Row(pixels: seq<seq<Pixel>>, width: nat, height: nat, y: nat): (line: seq<Pixel>)
    requires Fits(pixels, width, height) && y < height
    ensures |line| == width
  {
    pixels[y][..width]
  }

  /** The first n pixels of column x, top to bottom. */
  function Column(pixels: seq<seq<Pixel>>, width: nat, height: nat, x: nat, n: nat): (line: seq<Pixel>)
    requires Fits(pixels, width, height) && x < width && n <= height
    ensures |line| == n
    ensures forall y :: 0 <= y < n ==> line[y] == pixels[y][x]
  {
    if n == 0 then [] else Column(pixels, width, height, x, n - 1) + [pixels[n - 1][x]]
  }

  /** The run lengths recorded along the given rows, one row after another. */
  function RowScan(pixels: seq<seq<Pixel>>, width: nat, height: nat, ys: seq<nat>): seq<nat>
    requires Fits(pixels, width, height) && forall i :: 0 <= i < |ys| ==> ys[i] < height
  {
    if ys == [] then []
    else RowScan(pixels, width, height, ys[..|ys| - 1]) + Recorded(Row(pixels, width, height, ys[|ys| - 1]))
  }

  /** The run lengths recorded down the given columns, one column after another. */
  function ColumnScan(pixels: seq<seq<Pixel>>, width: nat, height: nat, xs: seq<nat>): seq<nat>
    requires Fits(pixels, width, height) && forall i :: 0 <= i < |xs| ==> xs[i] < width
  {
    if xs == [] then []
    else ColumnScan(pixels, width, height, xs[..|xs| - 1]) + Recorded(Column(pixels, width, height, xs[|xs| - 1], height))
  }

  /** Lines of length size: each recorded run is between 2 and size. */
  predicate RunsWithin(runs: seq<nat>, size: nat) {
    forall i :: 0 <= i < |runs| ==> 2 <= runs[i] <= size
  }

  lemma RunsWithinJoin(a: seq<nat>, b: seq<nat>, size: nat)
    requires RunsWithin(a, size) && RunsWithin(b, size)
    ensures RunsWithin(a + b, size)
  {
  }

  lemma {:induction false} RowScanBounds(pixels: seq<seq<Pixel>>, width: nat, height: nat, ys: seq<nat>)
    requires Fits(pixels, width, height) && forall i :: 0 <= i < |ys| ==> ys[i] < height
    ensures RunsWithin(RowScan(pixels, width, height, ys), width)
  {
    if ys != [] {
      RowScanBounds(pixels, width, height, ys[..|ys| - 1]);
      RecordedBounds(Row(pixels, width, height, ys[|ys| - 1]));
      RunsWithinJoin(RowScan(pixels, width, height, ys[..|ys| - 1]), Recorded(Row(pixels, width, height, ys[|ys| - 1])), width);
    }
  }

  lemma {:induction false} ColumnScanBounds(pixels: seq<seq<Pixel>>, width: nat, height: nat, xs: seq<nat>)
    requires Fits(pixels, width, height) && forall i :: 0 <= i < |xs| ==> xs[i] < width
    ensures RunsWithin(ColumnScan(pixels, width, height, xs), height)
  {
    if xs != [] {
      var line := Column(pixels, width, height, xs[|xs| - 1], height);
      ColumnScanBounds(pixels, width, height, xs[..|xs| - 1]);
      RecordedBounds(line);
      RunsWithinJoin(ColumnScan(pixels, width, height, xs[..|xs| - 1]), Recorded(line), height);
    }
  }

  // detect_grid_size on a loaded picture.

  /** What detect_grid_size prints: the five most common run lengths across and down, the
      estimated square size and the grid size it gives. */
  datatype Estimate = Estimate(commonRows: seq<Common>, commonCols: seq<Common>,
                               squareWidth: nat, squareHeight: nat, gridWidth: int, gridHeight: int)

  /** An estimate taken from runs no longer than size is itself at most size: the grid
      is at least one square across. */
  lemma EstimateWithin(runs: seq<nat>, size: nat)
    requires RunsWithin(runs, size) && size >= 1
    ensures SquareEstimate(MostCommon(runs, 5)) <= size
  {
    var common := MostCommon(runs, 5);
    EstimateSpec(common);
    MostCommonSpec(runs, 5);
    if SquareEstimate(common) != 1 {
      var i :| 0 <= i < |common| && common[i].run == SquareEstimate(common) &&
               forall j :: 0 <= j < i ==> common[j].run <= 5;
      var k :| 0 <= k < |runs| && runs[k] == common[i].run;
    }
  }

  /** A size divided by a positive side no larger than it is at least 1. */
  lemma QuotientPositive(size: nat, side: nat)
    requires 1 <= side <= size
    ensures FloorDiv(size, side) >= 1
  {
    var q := FloorDiv(size, side);
    FloorDivBounds(size, side);
    if q <= 0 {
      MulMono(q, 0, side);
    }
  }

  /** The scan of the rows at the given positions. */
  method ScanRows(pixels: seq<seq<Pixel>>, width: nat, height: nat, ys: seq<nat>) returns (rowRuns: seq<nat>)
    requires Fits(pixels, width, height) && forall i :: 0 <= i < |ys| ==> ys[i] < height
    ensures rowRuns == RowScan(pixels, width, height, ys)
  {
    rowRuns := [];
    for i := 0 to |ys|
      invariant rowRuns == RowScan(pixels, width, height, ys[..i])
    {
      var runs := RunLengths(Row(pixels, width, height, ys[i]));
      RowScanSnoc(pixels, width, height, ys, i);
      rowRuns := rowRuns + runs;
    }
    assert ys[..|ys|] == ys;
  }

  lemma RowScanSnoc(pixels: seq<seq<Pixel>>, width: nat, height: nat, ys: seq<nat>, i: int)
    requires Fits(pixels, width, height) && forall i :: 0 <= i < |ys| ==> ys[i] < height
    requires 0 <= i < |ys|
    ensures RowScan(pixels, width, height, ys[..i + 1]) ==
            RowScan(pixels, width, height, ys[..i]) + Recorded(Row(pixels, width, height, ys[i]))
  {
    assert ys[..i + 1][..i] == ys[..i];
  }

  /** The scan of the columns at the given positions. */
  method ScanColumns(pixels: seq<seq<Pixel>>, width: nat, height: nat, xs: seq<nat>) returns (colRuns: seq<nat>)
    requires Fits(pixels, width, height) && forall i :: 0 <= i < |xs| ==> xs[i] < width
    ensures colRuns == ColumnScan(pixels, width, height, xs)
  {
    colRuns := [];
    for i := 0 to |xs|
      invariant colRuns == ColumnScan(pixels, width, height, xs[..i])
    {
      var runs := RunLengths(Column(pixels, width, height, xs[i], height));
      ColumnScanSnoc(pixels, width, height, xs, i);
      colRuns := colRuns + runs;
    }
    assert xs[..|xs|] == xs;
  }

  lemma ColumnScanSnoc(pixels: seq<seq<Pixel>>, width: nat, height: nat, xs: seq<nat>, i: int)
    requires Fits(pixels, width, height) && forall i :: 0 <= i < |xs| ==> xs[i] < width
    requires 0 <= i < |xs|
    ensures ColumnScan(pixels, width, height, xs[..i + 1]) ==
            ColumnScan(pixels, width, height, xs[..i]) + Recorded(Column(pixels, width, height, xs[i], height))
  {
    assert xs[..i + 1][..i] == xs[..i];
  }

  method DetectGridSize(pixels: seq<seq<Pixel>>, width: nat, height: nat) returns (e: Estimate)
    requires Fits(pixels, width, height) && width > 0 && height > 0
    ensures e.commonRows == MostCommon(RowScan(pixels, width, height, Positions(height)), 5)
    ensures e.commonCols == MostCommon(ColumnScan(pixels, width, height, Positions(width)), 5)
    ensures e.squareWidth == SquareEstimate(e.commonRows) && e.squareHeight == SquareEstimate(e.commonCols)
    ensures 1 <= e.squareWidth <= width && 1 <= e.squareHeight <= height
    ensures e.gridWidth >= 1 && e.gridHeight >= 1
    ensures e.gridWidth * e.squareWidth <= width < e.gridWidth * e.squareWidth + e.squareWidth
    ensures e.gridHeight * e.squareHeight <= height < e.gridHeight * e.squareHeight + e.squareHeight
  {
    PositionsInside(height);
    PositionsInside(width);
    var rowRuns := ScanRows(pixels, width, height, Positions(height));
    var colRuns := ScanColumns(pixels, width, height, Positions(width));
    var commonRows, commonCols := MostCommon(rowRuns, 5), MostCommon(colRuns, 5);
    var estW, estH := SquareEstimate(commonRows), SquareEstimate(commonCols);
    EstimateSpec(commonRows);
    EstimateSpec(commonCols);
    RowScanBounds(pixels, width, height, Positions(height));
    ColumnScanBounds(pixels, width, height, Positions(width));
    EstimateWithin(rowRuns, width);
    EstimateWithin(colRuns, height);
    QuotientPositive(width, estW);
    QuotientPositive(height, estH);
    FloorDivBounds(width, estW);
    FloorDivBounds(height, estH);
    e := Estimate(commonRows, commonCols, estW, estH, FloorDiv(width, estW), FloorDiv(height, estH));
  }
}
