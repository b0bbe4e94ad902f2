/** The Graham scan of the scatter plot tool (simulations/tools/scatterplot.py): upper and lower hulls
    of a list of points by two stacks. Coordinates are reals; rounding is not modelled. */
module ConvexHull {

  /** A plotted point: two coordinates and their confidence intervals, compared as a tuple. */
  datatype Point = Point(x: real, y: real, xci: real, yci: real)

  predicate TupleLe(p: Point, q: Point) {
    p.x < q.x || (p.x == q.x &&
    (p.y < q.y || (p.y == q.y &&
    (p.xci < q.xci || (p.xci == q.xci && p.yci <= q.yci)))))
  }

  /** Tuples are ordered by their first difference. */
  lemma TupleLeIsOrder(p: Point, q: Point, r: Point)
    ensures p.x < q.x || (p.x == q.x && p.y < q.y) ==> TupleLe(p, q) && !TupleLe(q, p)
    ensures TupleLe(p, q) || TupleLe(q, p)
    ensures TupleLe(p, q) && TupleLe(q, p) ==> p == q
    ensures TupleLe(p, q) && TupleLe(q, r) ==> TupleLe(p, r)
  {
  }

  predicate SortedPoints(s: seq<Point>) {
    forall i, j :: 0 <= i < j < |s| ==> TupleLe(s[i], s[j])
  }

  lemma PrependSorted(p: Point, s: seq<Point>)
    requires SortedPoints(s) && (forall q :: q in multiset(s) ==> TupleLe(p, q))
    ensures SortedPoints([p] + s)
  {
  }

  lemma HeadIsSmallest(s: seq<Point>)
    requires s != [] && SortedPoints(s)
    ensures forall q :: q in multiset(s[1..]) ==> TupleLe(s[0], q)
    ensures forall q :: q in multiset(s) ==> TupleLe(s[0], q)
  {
  }

  function Insert(p: Point, s: seq<Point>): (r: seq<Point>)
    requires SortedPoints(s)
    ensures SortedPoints(r) && multiset(r) == multiset(s) + multiset{p}
  {
    if s == [] then [p]
    else
      HeadIsSmallest(s);
      if TupleLe(p, s[0]) then
        PrependSorted(p, s);
        [p] + s
      else
        var rest := Insert(p, s[1..]);
        PrependSorted(s[0], rest);
        assert s == [s[0]] + s[1..];
        [s[0]] + rest
  }

  /** list.sort on tuples. */
  function Sort(s: seq<Point>): (r: seq<Point>)
    ensures SortedPoints(r) && multiset(r) == multiset(s)
  {
    if s == [] then []
    else
      assert s == [s[0]] + s[1..];
      Insert(s[0], Sort(s[1..]))
  }

  /** Positive if p-q-r are clockwise, negative if counterclockwise, zero if collinear. */
  function Orientation(p: Point, q: Point, r: Point): real {
    (q.y - p.y) * (r.x - p.x) - (q.x - p.x) * (r.y - p.y)
  }

  // ----- what a hull is

  /** How far p-q-r turns to the inner side of the upper or the lower hull. */
  function Turn(upper: bool, p: Point, q: Point, r: Point): real {
    if upper then Orientation(p, q, r) else -Orientation(p, q, r)
  }

  /** `s` is obtained from `t` by deleting elements. */
  ghost predicate Subsequence<T>(s: seq<T>, t: seq<T>) {
    if s == [] then true
    else if t == [] then false
    else
      || (s[|s| - 1] == t[|t| - 1] && Subsequence(s[..|s| - 1], t[..|t| - 1]))
      || Subsequence(s, t[..|t| - 1])
  }

  ghost predicate TurnsStrictly(upper: bool, h: seq<Point>) {
    forall i :: 0 <= i < |h| - 2 ==> Turn(upper, h[i], h[i + 1], h[i + 2]) > 0.0
  }

  /** Every point of `s` lies on, or to the inner side of, every edge of `h`. */
  ghost predicate Covers(upper: bool, h: seq<Point>, s: seq<Point>) {
    forall i, q :: 0 <= i < |h| - 1 && q in s ==> Turn(upper, h[i], h[i + 1], q) >= 0.0
  }

  /** `h` is the (upper or lower) hull of the sorted points `s`. */
  ghost predicate IsHull(upper: bool, h: seq<Point>, s: seq<Point>) {
    && Subsequence(h, s)
    && (s != [] ==> h != [] && h[0] == s[0] && h[|h| - 1] == s[|s| - 1])
    && TurnsStrictly(upper, h)
    && Covers(upper, h, s)
  }

  // ----- plane geometry

  lemma TurnTwice(upper: bool, p: Point, q: Point)
    ensures Turn(upper, p, q, q) == 0.0 && Turn(upper, p, q, p) == 0.0
  {
  }

  /** Popping b loses nothing: if b does not turn inwards on the way from a to p, then what lies inside
      a-b, and inside b-p once past b, lies inside a-p. */
  lemma PopCovers(upper: bool, a: Point, b: Point, p: Point, q: Point)
    requires TupleLe(a, b) && TupleLe(b, p) && TupleLe(a, q) && TupleLe(q, p)
    requires Turn(upper, a, b, p) <= 0.0 && Turn(upper, a, b, q) >= 0.0
    requires TupleLe(b, q) ==> Turn(upper, b, p, q) >= 0.0
    ensures Turn(upper, a, p, q) >= 0.0
  {
  }

  /** When b stays, the points up to b are inside the new edge b-p. */
  lemma KeepCovers(upper: bool, a: Point, b: Point, p: Point, q: Point)
    requires TupleLe(a, b) && TupleLe(b, p) && TupleLe(q, b)
    requires Turn(upper, a, b, p) > 0.0 && Turn(upper, a, b, q) >= 0.0
    ensures Turn(upper, b, p, q) >= 0.0
  {
  }

  /** A point beyond the chain that is inside one edge is inside the edge before it. */
  lemma EarlierEdgeCovers(upper: bool, a: Point, b: Point, c: Point, p: Point)
    requires TupleLe(a, b) && TupleLe(b, c) && TupleLe(b, p)
    requires Turn(upper, a, b, c) > 0.0 && Turn(upper, b, c, p) >= 0.0
    ensures Turn(upper, a, b, p) >= 0.0
  {
  }

  // ----- the scan

  lemma {:induction false} SubsequenceOfPrefix<T>(s: seq<T>, t: seq<T>)
    requires Subsequence(s, t) && s != []
    ensures Subsequence(s[..|s| - 1], t)
  {
    if s[|s| - 1] == t[|t| - 1] && Subsequence(s[..|s| - 1], t[..|t| - 1]) {
    } else {
      SubsequenceOfPrefix(s, t[..|t| - 1]);
    }
  }

  lemma SubsequencePush<T>(s: seq<T>, t: seq<T>, x: T)
    requires Subsequence(s, t)
    ensures Subsequence(s + [x], t + [x])
  {
  }

  /** What the pop loop keeps about the stack `h`, the points `s` scanned so far and the next point. */
  ghost predicate Popping(upper: bool, h: seq<Point>, s: seq<Point>, p: Point) {
    && SortedPoints(s) && SortedPoints(h) && h != [] && s != []
    && h[0] == s[0]
    && (forall q :: q in h ==> q in s)
    && (forall q :: q in s ==> TupleLe(q, p))
    && TurnsStrictly(upper, h) && Covers(upper, h, s)
    && Ahead(upper, h[|h| - 1], p, s)
  }

  /** The points past b are inside b-p. */
  ghost predicate Ahead(upper: bool, b: Point, p: Point, s: seq<Point>) {
    forall q :: q in s && TupleLe(b, q) ==> Turn(upper, b, p, q) >= 0.0
  }

  lemma PopStep(upper: bool, h: seq<Point>, s: seq<Point>, p: Point)
    requires Popping(upper, h, s, p) && |h| > 1
    requires Turn(upper, h[|h| - 2], h[|h| - 1], p) <= 0.0
    ensures Popping(upper, h[..|h| - 1], s, p)
  {
    var a, b := h[|h| - 2], h[|h| - 1];
    forall q | q in s && TupleLe(a, q)
      ensures Turn(upper, a, p, q) >= 0.0
    {
      PopCovers(upper, a, b, p, q);
    }
  }

  /** Once nothing more is popped, p is inside every edge that remains. */
  lemma {:induction false} EdgesCoverNext(upper: bool, h: seq<Point>, s: seq<Point>, p: Point, i: nat)
    requires Popping(upper, h, s, p) && i + 1 < |h|
    requires Turn(upper, h[|h| - 2], h[|h| - 1], p) > 0.0
    ensures Turn(upper, h[i], h[i + 1], p) >= 0.0
    decreases |h| - i
  {
    if i + 2 < |h| {
      EdgesCoverNext(upper, h, s, p, i + 1);
      EarlierEdgeCovers(upper, h[i], h[i + 1], h[i + 2], p);
    }
  }

  lemma LastEdgeCovers(upper: bool, h: seq<Point>, s: seq<Point>, p: Point, q: Point)
    requires Popping(upper, h, s, p) && q in s
    requires |h| > 1 ==> Turn(upper, h[|h| - 2], h[|h| - 1], p) > 0.0
    ensures Turn(upper, h[|h| - 1], p, q) >= 0.0
  {
    var b := h[|h| - 1];
    if !TupleLe(b, q) {
      if |h| > 1 {
        KeepCovers(upper, h[|h| - 2], b, p, q);
      }
    }
  }

  lemma PushStep(upper: bool, h: seq<Point>, s: seq<Point>, p: Point)
    requires Popping(upper, h, s, p)
    requires |h| > 1 ==> Turn(upper, h[|h| - 2], h[|h| - 1], p) > 0.0
    ensures TurnsStrictly(upper, h + [p]) && Covers(upper, h + [p], s + [p])
  {
    var h', s' := h + [p], s + [p];
    forall i, q | 0 <= i < |h'| - 1 && q in s'
      ensures Turn(upper, h'[i], h'[i + 1], q) >= 0.0
    {
      if i + 1 < |h| {
        if q in s {
        } else {
          EdgesCoverNext(upper, h, s, p, i);
        }
      } else if q in s {
        LastEdgeCovers(upper, h, s, p, q);
      } else {
        assert q == p && h'[i + 1] == p;
        TurnTwice(upper, h'[i], p);
      }
    }
  }


  /** What the scan keeps about one stack between two points. */
  ghost predicate Scanned(upper: bool, h: seq<Point>, s: seq<Point>) {
    && IsHull(upper, h, s) && SortedPoints(h)
    && (forall q :: q in h ==> q in s)
  }

  /** What the scan keeps about one stack while it pops before pushing p. */
  ghost predicate InPopLoop(upper: bool, h: seq<Point>, s: seq<Point>, p: Point) {
    if s == [] then h == [] else Popping(upper, h, s, p) && Subsequence(h, s)
  }

  lemma StartPopping(upper: bool, h: seq<Point>, s: seq<Point>, p: Point)
    requires Scanned(upper, h, s) && SortedPoints(s + [p])
    ensures InPopLoop(upper, h, s, p)
  {
    var t := s + [p];
    assert forall i :: 0 <= i < |s| ==> t[i] == s[i];
    assert t[|s|] == p;
    if s != [] {
      var last := s[|s| - 1];
      forall q | q in s
        ensures TupleLe(q, p) && TupleLe(q, last)
      {
        var i :| 0 <= i < |s| && s[i] == q;
        assert TupleLe(t[i], t[|s|]);
      }
      TurnTwice(upper, last, p);
    }
  }

  lemma PopOnce(upper: bool, h: seq<Point>, s: seq<Point>, p: Point)
    requires InPopLoop(upper, h, s, p) && |h| > 1
    requires Turn(upper, h[|h| - 2], h[|h| - 1], p) <= 0.0
    ensures InPopLoop(upper, h[..|h| - 1], s, p)
  {
    PopStep(upper, h, s, p);
    SubsequenceOfPrefix(h, s);
  }

  lemma PushSorted(h: seq<Point>, s: seq<Point>, p: Point)
    requires SortedPoints(h) && (forall q :: q in h ==> q in s)
    requires forall q :: q in s ==> TupleLe(q, p)
    ensures SortedPoints(h + [p])
  {
  }

  lemma StopPopping(upper: bool, h: seq<Point>, s: seq<Point>, p: Point)
    requires InPopLoop(upper, h, s, p)
    requires |h| > 1 ==> Turn(upper, h[|h| - 2], h[|h| - 1], p) > 0.0
    ensures Scanned(upper, h + [p], s + [p])
  {
    if s == [] {
      SubsequencePush(h, s, p);
    } else {
      SubsequencePush(h, s, p);
      PushStep(upper, h, s, p);
      PushSorted(h, s, p);
    }
  }

  lemma SortedPrefix(s: seq<Point>, k: nat)
    requires SortedPoints(s) && k < |s|
    ensures SortedPoints(s[..k] + [s[k]])
  {
  }

  /** The inner loop: pop while the last two entries and p do not turn inwards, that is while their
      orientation is <= 0 on the upper stack and >= 0 on the lower one. */
  method PopWhile(upper: bool, stack: seq<Point>, p: Point, ghost s: seq<Point>)
      returns (h: seq<Point>, ghost popped: nat)
    requires InPopLoop(upper, stack, s, p)
    ensures InPopLoop(upper, h, s, p) && |h| + popped == |stack|
    ensures |h| > 1 ==> Turn(upper, h[|h| - 2], h[|h| - 1], p) > 0.0
  {
    h, popped := stack, 0;
    while |h| > 1 && (if upper then Orientation(h[|h| - 2], h[|h| - 1], p) <= 0.0
                      else Orientation(h[|h| - 2], h[|h| - 1], p) >= 0.0)
      invariant InPopLoop(upper, h, s, p) && |h| + popped == |stack|
    {
      PopOnce(upper, h, s, p);
      h, popped := h[..|h| - 1], popped + 1;
    }
  }

  /** hulls: upper and lower convex hull of a list of points, which gets sorted; `pops` counts the
      entries removed from the two stacks. */
  method Hulls(points: seq<Point>) returns (sorted: seq<Point>, U: seq<Point>, L: seq<Point>, ghost pops: nat)
    ensures SortedPoints(sorted) && multiset(sorted) == multiset(points)
    ensures IsHull(true, U, sorted) && IsHull(false, L, sorted)
    ensures |U| + |L| + pops == 2 * |points|
  {
    sorted := Sort(points);
    U, L := [], [];
    pops := 0;
    for k := 0 to |sorted|
      invariant Scanned(true, U, sorted[..k]) && Scanned(false, L, sorted[..k])
      invariant |U| + |L| + pops == 2 * k
    {
      var p := sorted[k];
      ghost var s := sorted[..k];
      assert s + [p] == sorted[..k + 1];
      SortedPrefix(sorted, k);
      StartPopping(true, U, s, p);
      StartPopping(false, L, s, p);
      ghost var popped: nat, popped': nat;
      U, popped := PopWhile(true, U, p, s);
      L, popped' := PopWhile(false, L, p, s);
      pops := pops + popped + popped';
      StopPopping(true, U, s, p);
      StopPopping(false, L, s, p);
      U := U + [p];
      L := L + [p];
    }
    assert sorted[..|sorted|] == sorted;
    assert |multiset(sorted)| == |multiset(points)|;
  }
}
