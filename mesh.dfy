/** The mesh primitives the Delaunay driver works with: points, edges and
    triangles over real coordinates. The geometric tests the driver calls
    (circumcircle containment, vertex membership, edge near-equality) are
    defined in headers outside this model, so they are not given formulas
    here: a `Geometry` value carries them, and every result of the driver
    is stated for whatever tests it carries. */
module Mesh {

  /** `Vector2<T>`: a point of the plane. */
  datatype Vertex = Vertex(x: real, y: real)

  /** `Edge<T>`: the segment from `p1` to `p2`. */
  datatype Edge = Edge(p1: Vertex, p2: Vertex)

  /** `Triangle<T>`: three corners; its edges run p1-p2, p2-p3 and p3-p1. */
  datatype Triangle = Triangle(p1: Vertex, p2: Vertex, p3: Vertex)
  {
    function E1(): Edge { Edge(p1, p2) }
    function E2(): Edge { Edge(p2, p3) }
    function E3(): Edge { Edge(p3, p1) }

    /** The edges in the order `e1, e2, e3`. */
    function Edges(): seq<Edge> { [E1(), E2(), E3()] }

    /** The corners in the order `p1, p2, p3`. */
    function Corners(): set<Vertex> { {p1, p2, p3} }
  }

  /** The geometric tests of `Triangle<T>` and `Edge<T>` the driver calls:
      `t.circumCircleContains(v)`, `t.containsVertex(v)` and
      `almost_equal(e, f)` on edges. */
  datatype Geometry = Geometry(
    circumCircleContains: (Triangle, Vertex) -> bool,
    containsVertex: (Triangle, Vertex) -> bool,
    almostEqual: (Edge, Edge) -> bool)

  /** `containsVertex` compares corners by coordinate identity. */
  ghost predicate ExactVertexTest(geo: Geometry) {
    forall t: Triangle, v: Vertex :: geo.containsVertex(t, v) <==> v in t.Corners()
  }
}
