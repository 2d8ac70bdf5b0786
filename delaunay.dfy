/** `Delaunay<T>`: the Bowyer-Watson incremental triangulation driver.
    The specification functions at the top say what each phase of
    `triangulate` computes; the methods below perform the phases step by
    step on the object's vectors and are proved against them; the lemmas at
    the end state what the phases promise. */
module DelaunayTriangulation {
  import opened Numeric
  import opened Mesh
  import opened Marked

  // ---------------------------------------------------------------------
  // Bounding box and super-triangle
  // ---------------------------------------------------------------------

  /** The bounds `minX, minY, maxX, maxY` of the input. */
  datatype Box = Box(minX: real, minY: real, maxX: real, maxY: real)

  predicate InBox(b: Box, v: Vertex) {
    b.minX <= v.x <= b.maxX && b.minY <= v.y <= b.maxY
  }

  /** The box of a single point. */
  function PointBox(v: Vertex): Box {
    Box(v.x, v.y, v.x, v.y)
  }

  /** One pass of the bounding loop: each bound moves out to `v` if `v` lies
      beyond it. */
  function Extend(b: Box, v: Vertex): Box {
    Box(if v.x < b.minX then v.x else b.minX,
        if v.y < b.minY then v.y else b.minY,
        if v.x > b.maxX then v.x else b.maxX,
        if v.y > b.maxY then v.y else b.maxY)
  }

  /** The bounds after the loop has visited every vertex of `vs`. */
  function BoxOf(vs: seq<Vertex>): Box
    requires |vs| > 0
    decreases |vs|
  {
    if |vs| == 1 then PointBox(vs[0]) else Extend(BoxOf(vs[..|vs| - 1]), vs[|vs| - 1])
  }

  /** `deltaMax = std::max(dx, dy)`: the larger side of the box. */
  function DeltaMax(b: Box): (r: real)
    ensures r >= b.maxX - b.minX && r >= b.maxY - b.minY
    ensures r == b.maxX - b.minX || r == b.maxY - b.minY
  {
    var dx := b.maxX - b.minX;
    var dy := b.maxY - b.minY;
    if dx < dy then dy else dx
  }

  /** The super-triangle `(p1, p2, p3)` built around the box: an isosceles
      triangle with its apex `p2` above the box centre and its base
      `p1-p3` one `deltaMax` below it. */
  function SuperTriangle(b: Box): (r: Triangle)
    ensures var d := DeltaMax(b);
            var mid := Vertex(Half(b.minX + b.maxX), Half(b.minY + b.maxY));
            r.p1 == Vertex(mid.x - 20.0 * d, mid.y - d) &&
            r.p2 == Vertex(mid.x, mid.y + 20.0 * d) &&
            r.p3 == Vertex(mid.x + 20.0 * d, mid.y - d)
    ensures r.p1.y == r.p3.y && r.p2.x == Half(r.p1.x + r.p3.x)
    ensures r.p3.x - r.p1.x == 40.0 * DeltaMax(b) && r.p2.y - r.p1.y == 21.0 * DeltaMax(b)
  {
    var d := DeltaMax(b);
    var midx := Half(b.minX + b.maxX);
    var midy := Half(b.minY + b.maxY);
    Triangle(Vertex(midx - 20.0 * d, midy - d),
             Vertex(midx, midy + 20.0 * d),
             Vertex(midx + 20.0 * d, midy - d))
  }

  /** Twice the signed area of `a, b, c`; negative when they turn clockwise. */
  function Orientation(a: Vertex, b: Vertex, c: Vertex): real {
    (b.x - a.x) * (c.y - a.y) - (b.y - a.y) * (c.x - a.x)
  }

  /** `v` lies strictly inside the clockwise triangle `t`. */
  predicate StrictlyInsideClockwise(t: Triangle, v: Vertex) {
    Orientation(t.p1, t.p2, v) < 0.0 && Orientation(t.p2, t.p3, v) < 0.0 && Orientation(t.p3, t.p1, v) < 0.0
  }

  // ---------------------------------------------------------------------
  // One insertion step
  // ---------------------------------------------------------------------

  /** The `isBad` flags the scan sets: the triangles whose circumcircle
      contains `p`. */
  function BadFlags(ts: seq<Triangle>, p: Vertex, geo: Geometry): (m: seq<bool>)
    ensures |m| == |ts|
  {
    seq(|ts|, i requires 0 <= i < |ts| => geo.circumCircleContains(ts[i], p))
  }

  /** The triangles that survive the erase of the bad ones. */
  function Kept(ts: seq<Triangle>, p: Vertex, geo: Geometry): seq<Triangle> {
    RemoveMarked(ts, BadFlags(ts, p, geo))
  }

  /** The bad triangles, in scan order. */
  function Removed(ts: seq<Triangle>, p: Vertex, geo: Geometry): seq<Triangle> {
    Select(ts, BadFlags(ts, p, geo))
  }

  /** The edges `e1, e2, e3` of each triangle, triangle after triangle. */
  function EdgesOf(ts: seq<Triangle>): seq<Edge>
    decreases |ts|
  {
    if ts == [] then [] else EdgesOf(ts[..|ts| - 1]) + ts[|ts| - 1].Edges()
  }

  /** The edge at position `k` of `polygon` is almost equal to another entry:
      to a later one `e2` (tested as `almost_equal(polygon[k], e2)`) or to an
      earlier one `e1` (tested as `almost_equal(e1, polygon[k])`). */
  predicate Shared(polygon: seq<Edge>, k: int, same: (Edge, Edge) -> bool)
    requires 0 <= k < |polygon|
  {
    (exists j :: k < j < |polygon| && same(polygon[k], polygon[j])) ||
    (exists i :: 0 <= i < k && same(polygon[i], polygon[k]))
  }

  /** The `isBad` flags the duplicate-edge pass sets. */
  function SharedFlags(polygon: seq<Edge>, same: (Edge, Edge) -> bool): (m: seq<bool>)
    ensures |m| == |polygon|
  {
    seq(|polygon|, k requires 0 <= k < |polygon| => Shared(polygon, k, same))
  }

  /** The cavity boundary: the polygon edges that match no other entry. */
  function Boundary(polygon: seq<Edge>, same: (Edge, Edge) -> bool): seq<Edge> {
    RemoveMarked(polygon, SharedFlags(polygon, same))
  }

  /** The triangles `(e.p1, e.p2, p)` pushed for the boundary edges, in order. */
  function Fan(es: seq<Edge>, p: Vertex): seq<Triangle>
    decreases |es|
  {
    if es == [] then [] else Fan(es[..|es| - 1], p) + [Triangle(es[|es| - 1].p1, es[|es| - 1].p2, p)]
  }

  /** The working triangles after `p` has been inserted. */
  function InsertStep(ts: seq<Triangle>, p: Vertex, geo: Geometry): seq<Triangle> {
    Kept(ts, p, geo) + Fan(Boundary(EdgesOf(Removed(ts, p, geo)), geo.almostEqual), p)
  }

  /** The working triangles after the vertices of `vs` have been inserted
      one after the other, starting from `ts`. */
  function InsertAll(ts: seq<Triangle>, vs: seq<Vertex>, geo: Geometry): seq<Triangle>
    decreases |vs|
  {
    if vs == [] then ts else InsertStep(InsertAll(ts, vs[..|vs| - 1], geo), vs[|vs| - 1], geo)
  }

  // ---------------------------------------------------------------------
  // Finalisation
  // ---------------------------------------------------------------------

  /** The test of the final erase: `t` has a corner of the super-triangle. */
  predicate TouchesSuper(t: Triangle, super: Triangle, geo: Geometry) {
    geo.containsVertex(t, super.p1) || geo.containsVertex(t, super.p2) || geo.containsVertex(t, super.p3)
  }

  function SuperFlags(ts: seq<Triangle>, super: Triangle, geo: Geometry): (m: seq<bool>)
    ensures |m| == |ts|
  {
    seq(|ts|, i requires 0 <= i < |ts| => TouchesSuper(ts[i], super, geo))
  }

  /** The working triangles without those touching the super-triangle. */
  function Finalize(ts: seq<Triangle>, super: Triangle, geo: Geometry): seq<Triangle> {
    RemoveMarked(ts, SuperFlags(ts, super, geo))
  }

  /** `_triangles` after `triangulate(vs)` on an object whose `_triangles`
      held `ts` before the call. */
  function Triangulation(ts: seq<Triangle>, vs: seq<Vertex>, geo: Geometry): seq<Triangle>
    requires |vs| > 0
  {
    var super := SuperTriangle(BoxOf(vs));
    Finalize(InsertAll(ts + [super], vs, geo), super, geo)
  }

  // ---------------------------------------------------------------------
  // The phases as the source performs them
  // ---------------------------------------------------------------------

  /** The bounding loop of `triangulate`: start from the first vertex and
      widen the bounds vertex by vertex. */
  method BoundingBox(vertices: array<Vertex>) returns (box: Box)
    requires vertices.Length > 0
    ensures box == BoxOf(vertices[..])
  {
    box := PointBox(vertices[0]);
    for i := 0 to vertices.Length
      invariant i == 0 ==> box == PointBox(vertices[0])
      invariant i > 0 ==> box == BoxOf(vertices[..i])
    {
      assert vertices[..i + 1][..i] == vertices[..i];
      box := Extend(box, vertices[i]);
    }
    assert vertices[..vertices.Length] == vertices[..];
  }

  /** The scan of one insertion step: flag every triangle whose circumcircle
      contains `p`, and collect its three edges into the polygon. */
  method ScanTriangles(ts: seq<Triangle>, p: Vertex, geo: Geometry) returns (bad: seq<bool>, polygon: seq<Edge>)
    ensures |bad| == |ts|
    ensures forall i :: 0 <= i < |ts| ==> (bad[i] <==> geo.circumCircleContains(ts[i], p))
    ensures polygon == EdgesOf(Removed(ts, p, geo))
  {
    bad, polygon := [], [];
    for i := 0 to |ts|
      invariant bad == BadFlags(ts[..i], p, geo)
      invariant polygon == EdgesOf(Select(ts[..i], bad))
    {
      var t := ts[i];
      var isBad := geo.circumCircleContains(t, p);
      assert ts[..i + 1] == ts[..i] + [t];
      assert BadFlags(ts[..i + 1], p, geo) == bad + [isBad];
      RemoveMarkedSnoc(ts[..i], bad, t, isBad);
      ghost var selected := Select(ts[..i], bad);
      assert Select(ts[..i + 1], bad + [isBad]) == selected + (if isBad then [t] else []);
      if isBad {
        EdgesOfSnoc(selected, t);
        polygon := polygon + t.Edges();
      } else {
        assert selected + [] == selected;
      }
      bad := bad + [isBad];
    }
    assert ts[..|ts|] == ts;
  }

  /** The duplicate-edge pass: for every pair of positions `i < j` whose
      edges are almost equal, flag both. */
  method MarkSharedEdges(polygon: seq<Edge>, same: (Edge, Edge) -> bool) returns (bad: seq<bool>)
    ensures |bad| == |polygon|
    ensures forall k :: 0 <= k < |polygon| ==> (bad[k] <==> Shared(polygon, k, same))
  {
    var n := |polygon|;
    bad := seq(n, _ => false);
    for i := 0 to n
      invariant |bad| == n
      invariant forall k :: 0 <= k < n ==> (bad[k] <==> MatchedBefore(polygon, same, k, i, i + 1))
    {
      for j := i + 1 to n
        invariant |bad| == n
        invariant forall k :: 0 <= k < n ==> (bad[k] <==> MatchedBefore(polygon, same, k, i, j))
      {
        if same(polygon[i], polygon[j]) {
          bad := bad[i := true][j := true];
        }
        forall k | 0 <= k < n
          ensures bad[k] <==> MatchedBefore(polygon, same, k, i, j + 1)
        {
          MatchedBeforeStep(polygon, same, k, i, j);
        }
      }
      forall k | 0 <= k < n
        ensures bad[k] <==> MatchedBefore(polygon, same, k, i + 1, i + 2)
      {
        MatchedBeforeNextRow(polygon, same, k, i);
      }
    }
    forall k | 0 <= k < n
      ensures bad[k] <==> Shared(polygon, k, same)
    {
      MatchedBeforeAll(polygon, same, k);
    }
  }

  /** Position `k` belongs to an almost-equal pair `(a, b)`, `a < b`, that the
      nested loops have visited before reaching row `i`, column `j`. */
  ghost predicate MatchedBefore(polygon: seq<Edge>, same: (Edge, Edge) -> bool, k: int, i: int, j: int) {
    exists a, b :: Visited(polygon, a, b, i, j) && (k == a || k == b) && same(polygon[a], polygon[b])
  }

  ghost predicate Visited(polygon: seq<Edge>, a: int, b: int, i: int, j: int) {
    0 <= a < b < |polygon| && (a < i || (a == i && b < j))
  }

  lemma MatchedBeforeStep(polygon: seq<Edge>, same: (Edge, Edge) -> bool, k: int, i: int, j: int)
    requires 0 <= i < j < |polygon|
    ensures MatchedBefore(polygon, same, k, i, j + 1) <==>
            MatchedBefore(polygon, same, k, i, j) || ((k == i || k == j) && same(polygon[i], polygon[j]))
  {
    if MatchedBefore(polygon, same, k, i, j + 1) && !MatchedBefore(polygon, same, k, i, j) {
      var a, b :| Visited(polygon, a, b, i, j + 1) && (k == a || k == b) && same(polygon[a], polygon[b]);
      assert !Visited(polygon, a, b, i, j);
    }
    if (k == i || k == j) && same(polygon[i], polygon[j]) {
      assert Visited(polygon, i, j, i, j + 1);
    }
  }

  lemma MatchedBeforeNextRow(polygon: seq<Edge>, same: (Edge, Edge) -> bool, k: int, i: int)
    ensures MatchedBefore(polygon, same, k, i, |polygon|) <==> MatchedBefore(polygon, same, k, i + 1, i + 2)
  {
    if MatchedBefore(polygon, same, k, i, |polygon|) {
      var a, b :| Visited(polygon, a, b, i, |polygon|) && (k == a || k == b) && same(polygon[a], polygon[b]);
      assert Visited(polygon, a, b, i + 1, i + 2);
    }
    if MatchedBefore(polygon, same, k, i + 1, i + 2) {
      var a, b :| Visited(polygon, a, b, i + 1, i + 2) && (k == a || k == b) && same(polygon[a], polygon[b]);
      assert Visited(polygon, a, b, i, |polygon|);
    }
  }

  lemma MatchedBeforeAll(polygon: seq<Edge>, same: (Edge, Edge) -> bool, k: int)
    requires 0 <= k < |polygon|
    ensures MatchedBefore(polygon, same, k, |polygon|, |polygon| + 1) <==> Shared(polygon, k, same)
  {
    var n := |polygon|;
    if MatchedBefore(polygon, same, k, n, n + 1) {
      var a, b :| Visited(polygon, a, b, n, n + 1) && (k == a || k == b) && same(polygon[a], polygon[b]);
      if k == a {
        assert k < b < n && same(polygon[k], polygon[b]);
      } else {
        assert 0 <= a < k && same(polygon[a], polygon[k]);
      }
    }
    if Shared(polygon, k, same) {
      if j :| k < j < n && same(polygon[k], polygon[j]) {
        assert Visited(polygon, k, j, n, n + 1);
      } else {
        var i :| 0 <= i < k && same(polygon[i], polygon[k]);
        assert Visited(polygon, i, k, n, n + 1);
      }
    }
  }

  /** `std::vector<Vertex>`, `std::vector<Triangle>` and `std::vector<Edge>`
      members of `Delaunay<T>`. */
  class Delaunay {
    var triangles: seq<Triangle>
    var edges: seq<Edge>
    var vertices: seq<Vertex>

    constructor ()
      ensures triangles == [] && edges == [] && vertices == []
    {
      triangles, edges, vertices := [], [], [];
    }

    /** `getTriangles()`: the `_triangles` vector as it stands. */
    function GetTriangles(): (r: seq<Triangle>)
      reads this
      ensures r == triangles
    {
      triangles
    }

    /** `getEdges()`: the `_edges` vector as it stands. */
    function GetEdges(): (r: seq<Edge>)
      reads this
      ensures r == edges
    {
      edges
    }

    /** `getVertices()`: the `_vertices` vector as it stands. */
    function GetVertices(): (r: seq<Vertex>)
      reads this
      ensures r == vertices
    {
      vertices
    }

    /** One pass of the insertion loop: erase the triangles whose
        circumcircle contains `p`, erase the cavity edges that appear twice,
        and push a triangle `(e.p1, e.p2, p)` for every remaining edge. */
    method InsertVertex(p: Vertex, geo: Geometry)
      modifies this
      ensures triangles == InsertStep(old(triangles), p, geo)
      ensures edges == old(edges) && vertices == old(vertices)
    {
      var bad, polygon := ScanTriangles(triangles, p, geo);
      assert bad == BadFlags(triangles, p, geo);
      triangles := RemoveMarked(triangles, bad);
      var shared := MarkSharedEdges(polygon, geo.almostEqual);
      assert shared == SharedFlags(polygon, geo.almostEqual);
      polygon := RemoveMarked(polygon, shared);
      for j := 0 to |polygon|
        invariant triangles == Kept(old(triangles), p, geo) + Fan(polygon[..j], p)
        invariant edges == old(edges) && vertices == old(vertices)
      {
        var e := polygon[j];
        assert polygon[..j + 1][..j] == polygon[..j];
        triangles := triangles + [Triangle(e.p1, e.p2, p)];
      }
      assert polygon[..|polygon|] == polygon;
    }

    /** The final loop: push `e1, e2, e3` of every triangle onto `_edges`. */
    method AppendEdges()
      modifies this
      ensures edges == old(edges) + EdgesOf(triangles)
      ensures triangles == old(triangles) && vertices == old(vertices)
    {
      for i := 0 to |triangles|
        invariant triangles == old(triangles) && vertices == old(vertices)
        invariant edges == old(edges) + EdgesOf(triangles[..i])
      {
        var t := triangles[i];
        assert triangles[..i + 1] == triangles[..i] + [t];
        EdgesOfSnoc(triangles[..i], t);
        edges := edges + [t.E1(), t.E2(), t.E3()];
      }
      assert triangles[..|triangles|] == triangles;
    }

    /** `triangulate`: copy the input, seed the working triangles with the
        super-triangle, insert every vertex in input order, erase the
        triangles touching the super-triangle and flatten the survivors'
        edges. Neither `_triangles` nor `_edges` is cleared first. */
    method Triangulate(input: array<Vertex>, geo: Geometry) returns (r: seq<Triangle>)
      requires input.Length > 0
      modifies this
      ensures vertices == input[..]
      ensures triangles == Triangulation(old(triangles), input[..], geo)
      ensures edges == old(edges) + EdgesOf(triangles)
      ensures r == triangles
    {
      vertices := input[..];
      var box := BoundingBox(input);
      var super := SuperTriangle(box);
      triangles := triangles + [super];
      for i := 0 to input.Length
        invariant triangles == InsertAll(old(triangles) + [super], input[..i], geo)
        invariant edges == old(edges) && vertices == input[..]
      {
        assert input[..i + 1][..i] == input[..i];
        InsertVertex(input[i], geo);
      }
      assert input[..input.Length] == input[..];
      triangles := RemoveMarked(triangles, SuperFlags(triangles, super, geo));
      AppendEdges();
      r := triangles;
    }
  }

  /** The driver program's use of the class: a fresh object, `triangulate`
      on the points, then `getEdges`. */
  method TriangulateFresh(points: array<Vertex>, geo: Geometry) returns (ts: seq<Triangle>, es: seq<Edge>)
    requires points.Length > 0
    ensures ts == Triangulation([], points[..], geo)
    ensures es == EdgesOf(ts) && |es| == 3 * |ts|
    ensures ExactVertexTest(geo) ==> forall t :: t in ts ==> t.Corners() <= set v | v in points[..]
  {
    var d := new Delaunay();
    ts := d.Triangulate(points, geo);
    es := d.GetEdges();
    EdgesOfShape(ts);
    if ExactVertexTest(geo) {
      TriangulationUsesInputVertices(points[..], geo);
    }
  }

  // ---------------------------------------------------------------------
  // Properties
  // ---------------------------------------------------------------------

  lemma EdgesOfSnoc(ts: seq<Triangle>, t: Triangle)
    ensures EdgesOf(ts + [t]) == EdgesOf(ts) + t.Edges()
  {
    assert (ts + [t])[..|ts|] == ts;
  }

  /** The flattened list holds three edges per triangle: `e1, e2, e3` of
      triangle `k` at positions `3k, 3k+1, 3k+2`. */
  lemma {:induction false} EdgesOfShape(ts: seq<Triangle>)
    ensures |EdgesOf(ts)| == 3 * |ts|
    ensures forall k :: 0 <= k < |ts| ==>
      EdgesOf(ts)[3 * k] == ts[k].E1() && EdgesOf(ts)[3 * k + 1] == ts[k].E2() && EdgesOf(ts)[3 * k + 2] == ts[k].E3()
    decreases |ts|
  {
    if ts != [] {
      var n := |ts| - 1;
      EdgesOfShape(ts[..n]);
      assert forall k :: 0 <= k < n ==> ts[..n][k] == ts[k];
    }
  }

  /** The bounding loop yields the tightest box: every vertex lies inside,
      and each bound is the coordinate of some vertex. */
  lemma {:induction false} BoxOfTight(vs: seq<Vertex>)
    requires |vs| > 0
    ensures forall v :: v in vs ==> InBox(BoxOf(vs), v)
    ensures exists i :: 0 <= i < |vs| && vs[i].x == BoxOf(vs).minX
    ensures exists i :: 0 <= i < |vs| && vs[i].y == BoxOf(vs).minY
    ensures exists i :: 0 <= i < |vs| && vs[i].x == BoxOf(vs).maxX
    ensures exists i :: 0 <= i < |vs| && vs[i].y == BoxOf(vs).maxY
    decreases |vs|
  {
    if |vs| > 1 {
      var n := |vs| - 1;
      var pre := vs[..n];
      BoxOfTight(pre);
      assert forall v :: v in vs ==> v in pre || v == vs[n] by {
        assert vs == pre + [vs[n]];
      }
      assert forall i :: 0 <= i < n ==> pre[i] == vs[i];
      var b, b' := BoxOf(pre), BoxOf(vs);
      var i0 :| 0 <= i0 < n && pre[i0].x == b.minX;
      var i1 :| 0 <= i1 < n && pre[i1].y == b.minY;
      var i2 :| 0 <= i2 < n && pre[i2].x == b.maxX;
      var i3 :| 0 <= i3 < n && pre[i3].y == b.maxY;
      assert vs[if b'.minX == b.minX then i0 else n].x == b'.minX;
      assert vs[if b'.minY == b.minY then i1 else n].y == b'.minY;
      assert vs[if b'.maxX == b.maxX then i2 else n].x == b'.maxX;
      assert vs[if b'.maxY == b.maxY then i3 else n].y == b'.maxY;
    } else {
      assert vs[0].x == BoxOf(vs).minX && vs[0].y == BoxOf(vs).minY;
    }
  }

  /** The super-triangle is clockwise and holds every point of a box of
      positive size strictly inside. */
  lemma SuperTriangleEncloses(b: Box, v: Vertex)
    requires InBox(b, v)
    requires DeltaMax(b) > 0.0
    ensures StrictlyInsideClockwise(SuperTriangle(b), v)
  {
    var d := DeltaMax(b);
    var t := SuperTriangle(b);
    var u := v.x - Half(b.minX + b.maxX);
    var w := v.y - Half(b.minY + b.maxY);
    assert -d <= 2.0 * u <= d && -d <= 2.0 * w <= d;
    ScaledNegative(Orientation(t.p1, t.p2, v), d, 20.0 * w - 21.0 * u - 400.0 * d);
    ScaledNegative(Orientation(t.p2, t.p3, v), d, 20.0 * w + 21.0 * u - 400.0 * d);
    ScaledNegative(Orientation(t.p3, t.p1, v), d, -40.0 * (w + d));
  }

  lemma ScaledNegative(o: real, d: real, e: real)
    requires o == d * e
    requires d > 0.0 && e < 0.0
    ensures o < 0.0
  {
  }

  /** No corner of the super-triangle of a box of positive size lies in the
      box, so no input vertex coincides with one. */
  lemma SuperCornersOutsideBox(b: Box)
    requires b.minX <= b.maxX && b.minY <= b.maxY
    requires DeltaMax(b) > 0.0
    ensures forall c :: c in SuperTriangle(b).Corners() ==> !InBox(b, c)
  {
    HalfOfSumBetween(b.minY, b.maxY);
  }

  /** The scan keeps exactly the triangles whose circumcircle does not
      contain `p`, and collects three edges per removed triangle. */
  lemma KeptAndRemoved(ts: seq<Triangle>, p: Vertex, geo: Geometry)
    ensures forall t :: t in Kept(ts, p, geo) <==> t in ts && !geo.circumCircleContains(t, p)
    ensures forall t :: t in Removed(ts, p, geo) <==> t in ts && geo.circumCircleContains(t, p)
    ensures multiset(Kept(ts, p, geo)) + multiset(Removed(ts, p, geo)) == multiset(ts)
    ensures |EdgesOf(Removed(ts, p, geo))| == 3 * (|ts| - |Kept(ts, p, geo)|)
  {
    var m := BadFlags(ts, p, geo);
    forall t
      ensures t in Kept(ts, p, geo) <==> t in ts && !geo.circumCircleContains(t, p)
      ensures t in Removed(ts, p, geo) <==> t in ts && geo.circumCircleContains(t, p)
    {
      RemoveMarkedMembers(ts, m, t);
      SelectMembers(ts, m, t);
    }
    Partition(ts, m);
    EdgesOfShape(Removed(ts, p, geo));
  }

  /** The kept triangles are in their original relative order: scanning a
      concatenation keeps the kept triangles of each part, one part after
      the other. */
  lemma KeptPreservesOrder(a: seq<Triangle>, b: seq<Triangle>, p: Vertex, geo: Geometry)
    ensures Kept(a + b, p, geo) == Kept(a, p, geo) + Kept(b, p, geo)
  {
    assert BadFlags(a + b, p, geo) == BadFlags(a, p, geo) + BadFlags(b, p, geo);
    RemoveMarkedAppend(a, BadFlags(a, p, geo), b, BadFlags(b, p, geo));
  }

  /** With a symmetric edge test, an edge of the polygon is dropped exactly
      when it is almost equal to an entry at some other position. */
  lemma SharedIffOtherMatch(polygon: seq<Edge>, same: (Edge, Edge) -> bool, k: int)
    requires 0 <= k < |polygon|
    requires forall e, f :: same(e, f) == same(f, e)
    ensures Shared(polygon, k, same) <==> exists j :: 0 <= j < |polygon| && j != k && same(polygon[k], polygon[j])
  {
    if j :| 0 <= j < |polygon| && j != k && same(polygon[k], polygon[j]) {
      if j < k {
        assert same(polygon[j], polygon[k]);
      }
    }
  }

  /** The cavity boundary is the subsequence of polygon entries that match
      no other entry; its members are exactly those entries. */
  lemma BoundaryMembers(polygon: seq<Edge>, same: (Edge, Edge) -> bool, e: Edge)
    ensures e in Boundary(polygon, same) <==> exists k :: 0 <= k < |polygon| && polygon[k] == e && !Shared(polygon, k, same)
    ensures |Boundary(polygon, same)| <= |polygon|
  {
    RemoveMarkedMembers(polygon, SharedFlags(polygon, same), e);
  }

  /** The fan holds one triangle `(e.p1, e.p2, p)` per edge, in edge order. */
  lemma {:induction false} FanShape(es: seq<Edge>, p: Vertex)
    ensures |Fan(es, p)| == |es|
    ensures forall k :: 0 <= k < |es| ==> Fan(es, p)[k] == Triangle(es[k].p1, es[k].p2, p)
    decreases |es|
  {
    if es != [] {
      var n := |es| - 1;
      FanShape(es[..n], p);
      assert forall k :: 0 <= k < n ==> es[..n][k] == es[k];
    }
  }

  /** After one insertion step the kept triangles come first, in their
      order, followed by one new triangle per boundary edge, each having the
      inserted point as its third corner. */
  lemma InsertStepShape(ts: seq<Triangle>, p: Vertex, geo: Geometry)
    ensures var kept := Kept(ts, p, geo);
            var boundary := Boundary(EdgesOf(Removed(ts, p, geo)), geo.almostEqual);
            var next := InsertStep(ts, p, geo);
            && |next| == |kept| + |boundary|
            && next[..|kept|] == kept
            && (forall k :: 0 <= k < |boundary| ==>
                  next[|kept| + k] == Triangle(boundary[k].p1, boundary[k].p2, p))
  {
    var boundary := Boundary(EdgesOf(Removed(ts, p, geo)), geo.almostEqual);
    FanShape(boundary, p);
  }

  /** The corners of all the triangles of `ts`. */
  ghost function CornersOf(ts: seq<Triangle>): set<Vertex> {
    set t, c | t in ts && c in t.Corners() :: c
  }

  /** Both ends of every collected edge are corners of its triangles. */
  lemma {:induction false} EdgesOfEnds(ts: seq<Triangle>)
    ensures forall e :: e in EdgesOf(ts) ==> e.p1 in CornersOf(ts) && e.p2 in CornersOf(ts)
    decreases |ts|
  {
    if ts != [] {
      var n := |ts| - 1;
      var pre := ts[..n];
      EdgesOfEnds(pre);
      assert ts == pre + [ts[n]];
      assert CornersOf(pre) <= CornersOf(ts) by {
        forall c | c in CornersOf(pre) ensures c in CornersOf(ts) {
          var t :| t in pre && c in t.Corners();
          assert t in ts;
        }
      }
      assert ts[n] in ts;
      assert ts[n].Corners() <= CornersOf(ts);
      forall e | e in EdgesOf(ts) ensures e.p1 in CornersOf(ts) && e.p2 in CornersOf(ts) {
        if e !in EdgesOf(pre) {
          assert e in ts[n].Edges();
        }
      }
    }
  }

  /** Every triangle after an insertion step is an old one, or has `p` as
      its third corner and two old corners as its others. */
  lemma InsertStepCorners(ts: seq<Triangle>, p: Vertex, geo: Geometry)
    ensures forall t :: t in InsertStep(ts, p, geo) ==>
      t in ts || (t.p3 == p && t.p1 in CornersOf(ts) && t.p2 in CornersOf(ts))
  {
    var removed := Removed(ts, p, geo);
    var polygon := EdgesOf(removed);
    var boundary := Boundary(polygon, geo.almostEqual);
    KeptAndRemoved(ts, p, geo);
    EdgesOfEnds(removed);
    FanShape(boundary, p);
    forall t | t in InsertStep(ts, p, geo)
      ensures t in ts || (t.p3 == p && t.p1 in CornersOf(ts) && t.p2 in CornersOf(ts))
    {
      if t !in Kept(ts, p, geo) {
        var k :| 0 <= k < |boundary| && Fan(boundary, p)[k] == t;
        var e := boundary[k];
        BoundaryMembers(polygon, geo.almostEqual, e);
        assert e in polygon;
        assert CornersOf(removed) <= CornersOf(ts);
      }
    }
  }

  /** Across the whole insertion loop every working triangle is a starting
      one or was built on corners that are starting corners or inserted
      vertices, with an inserted vertex as third corner. */
  lemma {:induction false} InsertAllCorners(ts: seq<Triangle>, vs: seq<Vertex>, geo: Geometry)
    ensures forall t :: t in InsertAll(ts, vs, geo) ==>
      t in ts || (t.p3 in vs && t.Corners() <= CornersOf(ts) + set v | v in vs)
    decreases |vs|
  {
    if vs != [] {
      var n := |vs| - 1;
      var before := InsertAll(ts, vs[..n], geo);
      InsertAllCorners(ts, vs[..n], geo);
      InsertStepCorners(before, vs[n], geo);
      var allowed := CornersOf(ts) + set v | v in vs;
      assert forall v :: v in vs[..n] ==> v in vs;
      assert CornersOf(before) <= allowed by {
        forall c | c in CornersOf(before) ensures c in allowed {
          var t :| t in before && c in t.Corners();
        }
      }
    }
  }

  /** Finalisation keeps exactly the triangles that touch no corner of the
      super-triangle, in their order. */
  lemma FinalizeExcludesSuper(ts: seq<Triangle>, super: Triangle, geo: Geometry)
    ensures forall t :: t in Finalize(ts, super, geo) <==> t in ts && !TouchesSuper(t, super, geo)
    ensures |Finalize(ts, super, geo)| <= |ts|
  {
    forall t ensures t in Finalize(ts, super, geo) <==> t in ts && !TouchesSuper(t, super, geo) {
      RemoveMarkedMembers(ts, SuperFlags(ts, super, geo), t);
    }
  }

  /** On a fresh object, when `containsVertex` compares corners exactly,
      every corner of every final triangle is an input vertex. */
  lemma TriangulationUsesInputVertices(vs: seq<Vertex>, geo: Geometry)
    requires |vs| > 0
    requires ExactVertexTest(geo)
    ensures forall t :: t in Triangulation([], vs, geo) ==> t.Corners() <= set v | v in vs
  {
    var super := SuperTriangle(BoxOf(vs));
    var working := InsertAll([] + [super], vs, geo);
    InsertAllCorners([] + [super], vs, geo);
    FinalizeExcludesSuper(working, super, geo);
    assert CornersOf([] + [super]) == super.Corners();
    forall t | t in Triangulation([], vs, geo)
      ensures t.Corners() <= set v | v in vs
    {
      assert t in working && !TouchesSuper(t, super, geo);
    }
  }
}
