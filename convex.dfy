/** The 2D convex-hull program: its point type, the two arithmetic helpers,
    the gift-wrapping (Jarvis march) hull and the sort-and-unique pass that
    removes repeated points from a drawn point set. Coordinates are reals,
    so the `== 0` collinearity test is exact. */
module ConvexHull {
  import opened Numeric

  datatype Point = Point(x: real, y: real)

  /** `Point::operator==`: exact equality of both coordinates. */
  function SamePoint(a: Point, b: Point): (r: bool)
    ensures r <==> a == b
  {
    a.x == b.x && a.y == b.y
  }

  /** The comparator shared by the sort and the leftmost search: by `x`,
      then by `y`. */
  predicate LexLess(a: Point, b: Point) {
    a.x < b.x || (a.x == b.x && a.y < b.y)
  }

  /** `LexLess` is a strict total order on points. */
  lemma LexLessIsStrictTotalOrder(a: Point, b: Point, c: Point)
    ensures !LexLess(a, a)
    ensures LexLess(a, b) ==> !LexLess(b, a)
    ensures LexLess(a, b) && LexLess(b, c) ==> LexLess(a, c)
    ensures a != b ==> LexLess(a, b) || LexLess(b, a)
  {
  }

  /** `crossProduct(p1, p2, p3)`: the cross product of `p1->p2` and `p1->p3`. */
  function CrossProduct(p1: Point, p2: Point, p3: Point): (r: real)
    ensures p2 == p1 || p3 == p1 ==> r == 0.0
  {
    (p2.x - p1.x) * (p3.y - p1.y) - (p2.y - p1.y) * (p3.x - p1.x)
  }

  /** Swapping the last two arguments negates the cross product. */
  lemma CrossProductAntisymmetric(p1: Point, p2: Point, p3: Point)
    ensures CrossProduct(p1, p2, p3) == -CrossProduct(p1, p3, p2)
  {
  }

  /** `distanceSquared(p1, p2)`: never negative, and zero for a point and
      itself. */
  function DistanceSquared(p1: Point, p2: Point): (r: real)
    ensures r >= 0.0
    ensures p1 == p2 ==> r == 0.0
  {
    var dx := p2.x - p1.x;
    var dy := p2.y - p1.y;
    SumOfSquaresSign(dx, dy);
    dx * dx + dy * dy
  }

  /** A sum of two squares is never negative, and positive unless both
      terms are zero. */
  lemma SumOfSquaresSign(a: real, b: real)
    ensures a * a + b * b >= 0.0
    ensures a != 0.0 || b != 0.0 ==> a * a + b * b > 0.0
  {
    if a > 0.0 {
      if b > 0.0 {} else if b < 0.0 {} else {}
    } else if a < 0.0 {
      if b > 0.0 {} else if b < 0.0 {} else {}
    } else {
      if b > 0.0 {} else if b < 0.0 {} else {}
    }
  }

  lemma DistanceSquaredSymmetric(p1: Point, p2: Point)
    ensures DistanceSquared(p1, p2) == DistanceSquared(p2, p1)
  {
    assert (p2.x - p1.x) * (p2.x - p1.x) == (p1.x - p2.x) * (p1.x - p2.x);
    assert (p2.y - p1.y) * (p2.y - p1.y) == (p1.y - p2.y) * (p1.y - p2.y);
  }

  // ---------------------------------------------------------------------
  // Gift wrapping
  // ---------------------------------------------------------------------

  /** The index the leftmost search settles on among `pts`: the first
      position holding the smallest point by `LexLess`. */
  function LeftmostIndex(pts: seq<Point>): (k: nat)
    requires |pts| > 0
    ensures k < |pts|
    decreases |pts|
  {
    if |pts| == 1 then 0
    else
      var k := LeftmostIndex(pts[..|pts| - 1]);
      if LexLess(pts[|pts| - 1], pts[k]) then |pts| - 1 else k
  }

  /** The leftmost index holds the smallest point, and no earlier position
      holds an equal one. */
  lemma {:induction false} LeftmostIsFirstMinimum(pts: seq<Point>)
    requires |pts| > 0
    ensures forall j :: 0 <= j < |pts| ==> !LexLess(pts[j], pts[LeftmostIndex(pts)])
    ensures forall j :: 0 <= j < LeftmostIndex(pts) ==> LexLess(pts[LeftmostIndex(pts)], pts[j])
    decreases |pts|
  {
    if |pts| > 1 {
      var n := |pts| - 1;
      LeftmostIsFirstMinimum(pts[..n]);
      var k := LeftmostIndex(pts[..n]);
      assert forall j :: 0 <= j < n ==> pts[..n][j] == pts[j];
      if LexLess(pts[n], pts[k]) {
        forall j | 0 <= j < n ensures LexLess(pts[n], pts[j]) {
          LexLessIsStrictTotalOrder(pts[n], pts[k], pts[j]);
          LexLessIsStrictTotalOrder(pts[k], pts[j], pts[j]);
          if pts[j] != pts[k] {
            LexLessIsStrictTotalOrder(pts[j], pts[k], pts[j]);
          }
        }
      }
    }
  }

  /** The first loop of `giftWrapping`. */
  method Leftmost(points: array<Point>) returns (leftmost: nat)
    requires points.Length > 0
    ensures leftmost == LeftmostIndex(points[..])
  {
    leftmost := 0;
    for i := 1 to points.Length
      invariant leftmost == LeftmostIndex(points[..i])
    {
      assert points[..i + 1][..i] == points[..i];
      if points[i].x < points[leftmost].x ||
         (points[i].x == points[leftmost].x && points[i].y < points[leftmost].y) {
        leftmost := i;
      }
    }
    assert points[..points.Length] == points[..];
  }

  /** Candidate `i` replaces candidate `q` as the next hull point after `p`:
      `p->i` turns clockwise from `p->q` (`i` lies to the right of `p->q`),
      or `i` lies on that line and farther from `p`. */
  predicate Beats(pts: seq<Point>, p: nat, i: nat, q: nat)
    requires p < |pts| && i < |pts| && q < |pts|
  {
    var cross := CrossProduct(pts[p], pts[i], pts[q]);
    cross > 0.0 || (cross == 0.0 && DistanceSquared(pts[p], pts[i]) > DistanceSquared(pts[p], pts[q]))
  }

  /** The candidate the inner loop ends with when it resumes at index `i`
      with candidate `q`. The result never is `p` if `q` is not, and it is
      `q` or an index the scan reaches. */
  function Scan(pts: seq<Point>, p: nat, q: nat, i: nat): (r: nat)
    requires p < |pts| && q < |pts| && i <= |pts|
    ensures r < |pts|
    ensures q != p ==> r != p
    ensures r == q || i <= r
    decreases |pts| - i
  {
    if i == |pts| then q
    else if i == p || i == q then Scan(pts, p, q, i + 1)
    else if Beats(pts, p, i, q) then Scan(pts, p, i, i + 1)
    else Scan(pts, p, q, i + 1)
  }

  /** The next hull index after `p`: the scan starts from `(p + 1) % n`. */
  function NextIndex(pts: seq<Point>, p: nat): (q: nat)
    requires 2 <= |pts| && p < |pts|
    ensures q < |pts| && q != p
  {
    Scan(pts, p, (p + 1) % |pts|, 0)
  }

  /** No index the scan reaches after the final candidate beats it. */
  lemma {:induction false} ScanKeepsBest(pts: seq<Point>, p: nat, q: nat, i: nat)
    requires p < |pts| && q < |pts| && i <= |pts|
    ensures forall j :: i <= j < |pts| && Scan(pts, p, q, i) < j && j != p ==>
      !Beats(pts, p, j, Scan(pts, p, q, i))
    decreases |pts| - i
  {
    if i < |pts| {
      if i == p || i == q {
        ScanKeepsBest(pts, p, q, i + 1);
      } else if Beats(pts, p, i, q) {
        ScanKeepsBest(pts, p, i, i + 1);
      } else {
        ScanKeepsBest(pts, p, q, i + 1);
      }
    }
  }

  /** The next hull point is never beaten by a later index: every index
      after it lies to the left of `p->q`, or on that line and no farther
      from `p`. */
  lemma NextIndexUnbeatenAfter(pts: seq<Point>, p: nat)
    requires 2 <= |pts| && p < |pts|
    ensures forall j :: NextIndex(pts, p) < j < |pts| && j != p ==> !Beats(pts, p, j, NextIndex(pts, p))
  {
    ScanKeepsBest(pts, p, (p + 1) % |pts|, 0);
  }

  /** The index the hull walk has reached after `k` steps from `start`. */
  function Walk(pts: seq<Point>, start: nat, k: nat): (r: nat)
    requires 2 <= |pts| && start < |pts|
    ensures r < |pts|
  {
    if k == 0 then start else NextIndex(pts, Walk(pts, start, k - 1))
  }

  /** The walk is deterministic: once it revisits an index it repeats. */
  lemma {:induction false} WalkRepeats(pts: seq<Point>, start: nat, i: nat, j: nat, t: nat)
    requires 2 <= |pts| && start < |pts|
    requires Walk(pts, start, i) == Walk(pts, start, j)
    ensures Walk(pts, start, i + t) == Walk(pts, start, j + t)
    decreases t
  {
    if t > 0 {
      WalkRepeats(pts, start, i, j, t - 1);
      WalkStepsAlike(pts, start, i + t - 1, j + t - 1);
    }
  }

  lemma WalkStepsAlike(pts: seq<Point>, start: nat, a: nat, b: nat)
    requires 2 <= |pts| && start < |pts|
    requires Walk(pts, start, a) == Walk(pts, start, b)
    ensures Walk(pts, start, a + 1) == Walk(pts, start, b + 1)
  {
  }

  /** A walk that first comes back to its start after `m` steps visits `m`
      different indices on the way, so `m` is at most the number of points. */
  lemma ClosedWalkIsSimple(pts: seq<Point>, start: nat, m: nat)
    requires 2 <= |pts| && start < |pts|
    requires 0 < m && Walk(pts, start, m) == start
    requires forall i :: 0 < i < m ==> Walk(pts, start, i) != start
    ensures forall i, j :: 0 <= i < j < m ==> Walk(pts, start, i) != Walk(pts, start, j)
    ensures m <= |pts|
  {
    forall i, j | 0 <= i < j < m
      ensures Walk(pts, start, i) != Walk(pts, start, j)
    {
      var t := m - j;
      assert 0 < i + t < m;
      if Walk(pts, start, i) == Walk(pts, start, j) {
        WalkRepeats(pts, start, i, j, t);
        assert false;
      }
    }
    var visited := seq(m, i requires 0 <= i < m => Walk(pts, start, i));
    DistinctBelowBound(visited, |pts|);
  }

  /** Pairwise different naturals below `n` number at most `n`. */
  lemma DistinctBelowBound(s: seq<nat>, n: nat)
    requires forall i :: 0 <= i < |s| ==> s[i] < n
    requires forall i, j :: 0 <= i < j < |s| ==> s[i] != s[j]
    ensures |s| <= n
  {
    DistinctSeqCard(s);
    BoundedSetCard((set x: nat | x in s), n);
  }

  lemma {:induction false} DistinctSeqCard(s: seq<nat>)
    requires forall i, j :: 0 <= i < j < |s| ==> s[i] != s[j]
    ensures |set x: nat | x in s| == |s|
    decreases |s|
  {
    if s != [] {
      var n := |s| - 1;
      DistinctSeqCard(s[..n]);
      assert (set x: nat | x in s) == (set x: nat | x in s[..n]) + {s[n]} by {
        assert s == s[..n] + [s[n]];
      }
      assert s[n] !in s[..n];
    }
  }

  lemma {:induction false} BoundedSetCard(xs: set<nat>, n: nat)
    requires forall x :: x in xs ==> x < n
    ensures |xs| <= n
    decreases n
  {
    if n > 0 {
      BoundedSetCard(xs - {n - 1}, n - 1);
    } else {
      assert xs == {};
    }
  }

  /** The inner loop of `giftWrapping`: the candidate starts at `(p + 1) % n`
      and every other index that beats it takes its place. */
  method NextHullIndex(points: array<Point>, p: nat) returns (q: nat)
    requires 3 <= points.Length && p < points.Length
    ensures q == NextIndex(points[..], p)
  {
    var n := points.Length;
    ghost var pts := points[..];
    q := (p + 1) % n;
    for i := 0 to n
      invariant q < n
      invariant Scan(pts, p, q, i) == NextIndex(pts, p)
    {
      if i == p || i == q {
        continue;
      }
      var cross := CrossProduct(points[p], points[i], points[q]);
      if cross > 0.0 {
        q := i;
      } else if cross == 0.0 {
        if DistanceSquared(points[p], points[i]) > DistanceSquared(points[p], points[q]) {
          q := i;
        }
      }
    }
  }

  /** `hull` lists the points the walk from `start` visits, one per step,
      none after the first returning to `start`, and it stops either when
      the walk is back at `start` or after `n + 1` points. */
  predicate WrapsFrom(pts: seq<Point>, start: nat, hull: seq<Point>)
    requires 2 <= |pts| && start < |pts|
  {
    && 1 <= |hull| <= |pts| + 1
    && WalkPrefix(pts, start, hull)
    && (forall i :: 0 < i < |hull| ==> Walk(pts, start, i) != start)
    && (|hull| == |pts| + 1 || Walk(pts, start, |hull|) == start)
  }

  /** `hull` lists the first `|hull|` points of the walk from `start`. */
  predicate WalkPrefix(pts: seq<Point>, start: nat, hull: seq<Point>)
    requires 2 <= |pts| && start < |pts|
  {
    forall i :: 0 <= i < |hull| ==> hull[i] == pts[Walk(pts, start, i)]
  }

  lemma WalkPrefixSnoc(pts: seq<Point>, start: nat, hull: seq<Point>)
    requires 2 <= |pts| && start < |pts|
    requires WalkPrefix(pts, start, hull)
    ensures WalkPrefix(pts, start, hull + [pts[Walk(pts, start, |hull|)]])
  {
  }

  /** `giftWrapping`: with fewer than three points the input comes back as
      it is; otherwise the hull starts at the leftmost point and follows
      `NextIndex` until the walk returns to it or `n + 1` points have been
      collected. The input array is only read. */
  method GiftWrapping(points: array<Point>) returns (hull: seq<Point>)
    ensures points.Length < 3 ==> hull == points[..]
    ensures points.Length >= 3 ==> WrapsFrom(points[..], LeftmostIndex(points[..]), hull)
    ensures points.Length >= 3 ==> hull[0] == points[LeftmostIndex(points[..])]
    ensures forall h :: h in hull ==> h in points[..]
  {
    var n := points.Length;
    if n < 3 {
      return points[..];
    }
    ghost var pts := points[..];
    var leftmost := Leftmost(points);
    hull := [];
    var p := leftmost;
    while true
      invariant p < n && |hull| <= n
      invariant p == Walk(pts, leftmost, |hull|)
      invariant pts == points[..]
      invariant WalkPrefix(pts, leftmost, hull)
      invariant forall i :: 0 < i <= |hull| ==> Walk(pts, leftmost, i) != leftmost
      decreases n - |hull|
    {
      WalkPrefixSnoc(pts, leftmost, hull);
      hull := hull + [points[p]];
      p := NextHullIndex(points, p);
      if !(p != leftmost && |hull| <= n) {
        break;
      }
    }
    forall h | h in hull ensures h in points[..] {
      var i :| 0 <= i < |hull| && hull[i] == h;
    }
  }

  /** When the hull closes, it lists pairwise different input positions,
      so the `n + 1` guard never cuts a closing walk short. */
  lemma ClosedHullIsSimple(points: seq<Point>, hull: seq<Point>)
    requires 3 <= |points|
    requires 1 <= |hull| <= |points| + 1
    requires forall i :: 0 < i < |hull| ==> Walk(points, LeftmostIndex(points), i) != LeftmostIndex(points)
    requires Walk(points, LeftmostIndex(points), |hull|) == LeftmostIndex(points)
    ensures |hull| <= |points|
    ensures forall i, j :: 0 <= i < j < |hull| ==>
      Walk(points, LeftmostIndex(points), i) != Walk(points, LeftmostIndex(points), j)
  {
    ClosedWalkIsSimple(points, LeftmostIndex(points), |hull|);
  }

  // ---------------------------------------------------------------------
  // Removing repeated points: sort, unique, erase
  // ---------------------------------------------------------------------

  /** The `1e-9` tolerance of the `unique` predicate. */
  const Tolerance: real := 0.000000001

  /** The `unique` predicate: both coordinates differ by less than `1e-9`. */
  predicate Near(a: Point, b: Point) {
    Abs(a.x - b.x) < Tolerance && Abs(a.y - b.y) < Tolerance
  }

  /** No element is `LexLess` than an element before it. */
  predicate SortedLex(s: seq<Point>) {
    forall i, j :: 0 <= i < j < |s| ==> !LexLess(s[j], s[i])
  }

  /** Inserts `p` into sorted `s` before the first element not below it. */
  function InsertLex(p: Point, s: seq<Point>): (r: seq<Point>)
    requires SortedLex(s)
    ensures SortedLex(r)
    ensures multiset(r) == multiset(s) + multiset{p}
    decreases |s|
  {
    if s == [] then [p]
    else if !LexLess(s[0], p) then
      InsertLexFront(p, s);
      [p] + s
    else
      var rest := InsertLex(p, s[1..]);
      InsertLexBehind(p, s, rest);
      [s[0]] + rest
  }

  lemma InsertLexFront(p: Point, s: seq<Point>)
    requires SortedLex(s) && s != [] && !LexLess(s[0], p)
    ensures SortedLex([p] + s)
  {
    forall x | x in multiset(s) ensures !LexLess(x, p) {
      var j :| 0 <= j < |s| && s[j] == x;
      if j > 0 {
        assert !LexLess(s[j], s[0]);
      }
    }
    LexLessFirstIsLeast(p, s);
  }

  lemma InsertLexBehind(p: Point, s: seq<Point>, rest: seq<Point>)
    requires SortedLex(s) && s != [] && LexLess(s[0], p)
    requires SortedLex(rest) && multiset(rest) == multiset(s[1..]) + multiset{p}
    ensures SortedLex([s[0]] + rest)
    ensures multiset([s[0]] + rest) == multiset(s) + multiset{p}
  {
    forall x | x in multiset(rest) ensures !LexLess(x, s[0]) {
      if x != p {
        assert x in multiset(s[1..]);
        var j :| 0 <= j < |s| - 1 && s[1..][j] == x;
        assert s[j + 1] == x;
      }
    }
    LexLessFirstIsLeast(s[0], rest);
    assert s == [s[0]] + s[1..];
  }

  lemma LexLessFirstIsLeast(p: Point, s: seq<Point>)
    requires SortedLex(s)
    requires forall x :: x in multiset(s) ==> !LexLess(x, p)
    ensures SortedLex([p] + s)
  {
    forall i, j | 0 <= i < j < |[p] + s| ensures !LexLess(([p] + s)[j], ([p] + s)[i]) {
      if i == 0 {
        assert ([p] + s)[j] == s[j - 1];
        assert s[j - 1] in multiset(s);
      }
    }
  }

  /** `std::sort` with the `(x, then y)` comparator: the points rearranged
      into ascending order. */
  function SortLex(s: seq<Point>): (r: seq<Point>)
    ensures SortedLex(r)
    ensures multiset(r) == multiset(s)
    decreases |s|
  {
    if s == [] then []
    else
      assert s == [s[0]] + s[1..];
      InsertLex(s[0], SortLex(s[1..]))
  }

  /** Ties of the comparator are equal points, so sorting has a single
      possible outcome: any two sorted rearrangements of the same points are
      equal. The model's choice of sorting procedure is therefore
      immaterial. */
  lemma {:induction false} SortedArrangementIsUnique(a: seq<Point>, b: seq<Point>)
    requires SortedLex(a) && SortedLex(b)
    requires multiset(a) == multiset(b)
    ensures a == b
    decreases |a|
  {
    assert |b| == |a| by {
      assert |multiset(a)| == |a| && |multiset(b)| == |b|;
    }
    if a != [] {
      SortedHeadsAgree(a, b);
      TailMultiset(a);
      TailMultiset(b);
      SortedTail(a);
      SortedTail(b);
      SortedArrangementIsUnique(a[1..], b[1..]);
      assert a == [a[0]] + a[1..] && b == [b[0]] + b[1..];
    }
  }

  /** Two sorted rearrangements of the same points start with the same
      point. */
  lemma SortedHeadsAgree(a: seq<Point>, b: seq<Point>)
    requires SortedLex(a) && SortedLex(b)
    requires multiset(a) == multiset(b) && a != [] && b != []
    ensures a[0] == b[0]
  {
    assert a[0] in multiset(b);
    assert b[0] in multiset(a);
    var i :| 0 <= i < |b| && b[i] == a[0];
    var j :| 0 <= j < |a| && a[j] == b[0];
    assert !LexLess(a[0], b[0]) by {
      if j > 0 { assert !LexLess(a[j], a[0]); }
    }
    assert !LexLess(b[0], a[0]) by {
      if i > 0 { assert !LexLess(b[i], b[0]); }
    }
    LexLessIsStrictTotalOrder(a[0], b[0], b[0]);
  }

  lemma TailMultiset(s: seq<Point>)
    requires s != []
    ensures multiset(s[1..]) == multiset(s) - multiset{s[0]}
  {
    assert s == [s[0]] + s[1..];
    assert multiset(s) == multiset{s[0]} + multiset(s[1..]);
  }

  lemma SortedTail(s: seq<Point>)
    requires SortedLex(s) && s != []
    ensures SortedLex(s[1..])
  {
    forall i, j | 0 <= i < j < |s| - 1 ensures !LexLess(s[1..][j], s[1..][i]) {
      assert s[1..][j] == s[j + 1] && s[1..][i] == s[i + 1];
    }
  }

  /** `std::unique` with the `Near` predicate: keep the first point and every
      point that is not near the last point kept. */
  function Unique(s: seq<Point>): (r: seq<Point>)
    ensures |r| <= |s|
    ensures |r| == 0 <==> |s| == 0
    decreases |s|
  {
    if |s| <= 1 then s
    else
      var u := Unique(s[..|s| - 1]);
      if Near(u[|u| - 1], s[|s| - 1]) then u else u + [s[|s| - 1]]
  }

  lemma NearReflexive(a: Point)
    ensures Near(a, a)
  {
  }

  /** Every kept point is an input point. */
  lemma {:induction false} UniqueKeepsInputPoints(s: seq<Point>)
    ensures forall x :: x in Unique(s) ==> x in s
    decreases |s|
  {
    if |s| > 1 {
      var n := |s| - 1;
      UniqueKeepsInputPoints(s[..n]);
      assert s == s[..n] + [s[n]];
    }
  }

  /** Sorted input gives sorted output. */
  lemma {:induction false} UniqueKeepsOrder(s: seq<Point>)
    requires SortedLex(s)
    ensures SortedLex(Unique(s))
    decreases |s|
  {
    if |s| > 1 {
      var n := |s| - 1;
      var pre := s[..n];
      assert SortedLex(pre);
      UniqueKeepsOrder(pre);
      UniqueKeepsInputPoints(pre);
      var u := Unique(pre);
      var r := Unique(s);
      if !Near(u[|u| - 1], s[n]) {
        forall i, j | 0 <= i < j < |r| ensures !LexLess(r[j], r[i]) {
          if j == |r| - 1 {
            assert u[i] in pre;
            var k :| 0 <= k < n && pre[k] == u[i];
            assert !LexLess(s[n], s[k]);
          }
        }
      }
    }
  }

  /** No two neighbours of the result are near each other. */
  lemma {:induction false} UniqueSeparates(s: seq<Point>)
    ensures forall i :: 0 <= i < |Unique(s)| - 1 ==> !Near(Unique(s)[i], Unique(s)[i + 1])
    decreases |s|
  {
    if |s| > 1 {
      UniqueSeparates(s[..|s| - 1]);
    }
  }

  /** Every input point is near some kept point. */
  lemma {:induction false} UniqueCovers(s: seq<Point>)
    ensures forall x :: x in s ==> exists y :: y in Unique(s) && Near(x, y)
    decreases |s|
  {
    if |s| == 1 {
      NearReflexive(s[0]);
    } else if |s| > 1 {
      var n := |s| - 1;
      var pre := s[..n];
      UniqueCovers(pre);
      var u := Unique(pre);
      var r := Unique(s);
      assert s == pre + [s[n]];
      assert forall y :: y in u ==> y in r;
      forall x | x in s ensures exists y :: y in r && Near(x, y) {
        if x in pre {
          var y :| y in u && Near(x, y);
          assert y in r;
        } else if Near(u[|u| - 1], s[n]) {
          assert u[|u| - 1] in r;
          assert Near(x, u[|u| - 1]);
        } else {
          assert x in r;
          NearReflexive(x);
        }
      }
    }
  }

  /** The tail of `generateRandomPoints`: sort the drawn points by `x`, then
      `y`, drop every point near the last one kept, and erase the rest. The
      result is strictly ascending, no two neighbours are near, it holds
      only drawn points, every drawn point is near a kept one, and it is no
      longer than the draw. */
  function RemoveRepeatedPoints(drawn: seq<Point>): (r: seq<Point>)
    ensures |r| <= |drawn|
    ensures forall i, j :: 0 <= i < j < |r| ==> LexLess(r[i], r[j])
    ensures forall i :: 0 <= i < |r| - 1 ==> !Near(r[i], r[i + 1])
    ensures forall x :: x in r ==> x in drawn
    ensures forall x :: x in drawn ==> exists y :: y in r && Near(x, y)
  {
    var sorted := SortLex(drawn);
    SortedKeepsPoints(drawn, sorted);
    UniqueKeepsInputPoints(sorted);
    UniqueKeepsOrder(sorted);
    UniqueSeparates(sorted);
    UniqueCovers(sorted);
    StrictlyAscending(Unique(sorted));
    Unique(sorted)
  }

  lemma SortedKeepsPoints(drawn: seq<Point>, sorted: seq<Point>)
    requires multiset(sorted) == multiset(drawn)
    ensures |sorted| == |drawn|
    ensures forall x :: x in sorted <==> x in drawn
  {
    assert |multiset(sorted)| == |sorted| && |multiset(drawn)| == |drawn|;
    forall x ensures x in sorted <==> x in drawn {
      assert x in sorted <==> x in multiset(sorted);
      assert x in drawn <==> x in multiset(drawn);
    }
  }

  /** A sorted sequence whose neighbours are never near is strictly
      ascending. */
  lemma StrictlyAscending(r: seq<Point>)
    requires SortedLex(r)
    requires forall k :: 0 <= k < |r| - 1 ==> !Near(r[k], r[k + 1])
    ensures forall i, j :: 0 <= i < j < |r| ==> LexLess(r[i], r[j])
  {
    forall i, j | 0 <= i < j < |r| ensures LexLess(r[i], r[j]) {
      NearReflexive(r[i]);
      assert r[i] != r[i + 1];
      LexLessIsStrictTotalOrder(r[i], r[i + 1], r[j]);
      if i + 1 < j {
        LexLessIsStrictTotalOrder(r[i + 1], r[j], r[j]);
      }
    }
  }
}
