# CG_final core in Dafny

This project models the computational core of two small computational-geometry
programs and proves properties of the model.

- **2D Delaunay triangulation** (`Delaunay<T>::triangulate`, Bowyer–Watson
  incremental insertion). The bounding box of the input gives a large
  super-triangle. Every input vertex is then inserted in order. Each insertion
  erases the triangles whose circumcircle contains the vertex and collects
  their edges into a polygon. It drops every polygon edge that is almost equal
  to another entry, and fans the remaining cavity boundary to the new vertex.
  At the end the triangles touching a super-triangle corner are erased and the
  edges of the survivors are flattened into `_edges`.
- **Floating-point helpers** of the Delaunay program: `almost_equal` (relative
  tolerance of `ulp` machine epsilons, or absolute tolerance of the smallest
  normal value) and `half`.
- **2D convex hull**: `Point::operator==`, `crossProduct`, `distanceSquared`,
  the gift-wrapping (Jarvis march) `giftWrapping`, and the sort / `unique` /
  `erase` pass that `generateRandomPoints` uses to drop repeated points.

Files:

| file | module | contents |
|---|---|---|
| `numeric.dfy` | `Numeric` | `almost_equal` and `half` over reals; the floating-point type's epsilon and smallest normal value are the fields of `Limits` |
| `mesh.dfy` | `Mesh` | vertices, edges, triangles; the `Geometry` record that carries the triangle and edge tests |
| `marked.dfy` | `Marked` | the `erase(remove_if(...))` compaction over a sequence of flags |
| `delaunay.dfy` | `DelaunayTriangulation` | specification functions for each phase of `triangulate`, the class `Delaunay` with its three vectors, the methods performing each phase, and the lemmas |
| `convex.dfy` | `ConvexHull` | the convex-hull program |

The Delaunay driver calls three tests that are defined in `triangle.h` and
`edge.h`: `circumCircleContains`, `containsVertex` and `almost_equal` on
edges. Those headers are not part of this model. The driver is therefore
modelled and proved for *any* such tests: they are the function-typed fields
of a `Geometry` value passed to every operation. Where a property needs
something of a test, the lemma says so in its `requires`. Examples are
`SharedIffOtherMatch` (the edge test is symmetric) and
`TriangulationUsesInputVertices` (`containsVertex` compares corners exactly).

The triangle's edges `e1, e2, e3` are assumed to run `p1-p2`, `p2-p3`,
`p3-p1`: `triangle.h`, which builds them, is not part of this model.

Floating-point coordinates are modelled as reals, so every comparison is
exact. `std::sort` and `std::unique` are library algorithms: they are modelled
as functions (`SortLex`, `Unique`). `SortedArrangementIsUnique` shows that the
choice of sorting procedure does not matter.

## Model

| member | source | states |
|---|---|---|
| Numeric.AlmostEqual | 2D_delaunay/2D_delaunay/numeric.h:9-16 | the comparison holds whenever the difference is below the smallest normal value, in particular for equal arguments |
| Numeric.AlmostEqualDefault | 2D_delaunay/2D_delaunay/numeric.h:11-15 | at the default `ulp = 2` the comparison accepts exactly a difference within two epsilons of the magnitude of the sum, or below the smallest normal value |
| Numeric.AlmostEqualSymmetric | 2D_delaunay/2D_delaunay/numeric.h:14-15 | swapping the two values never changes the answer |
| Numeric.AlmostEqualReflexive | 2D_delaunay/2D_delaunay/numeric.h:14-15 | every value is almost equal to itself for every ulp tolerance, given positive floating-point limits |
| Numeric.AlmostEqualMonotone | 2D_delaunay/2D_delaunay/numeric.h:11-15 | raising the ulp tolerance never turns a match into a mismatch |
| Numeric.Half | 2D_delaunay/2D_delaunay/numeric.h:21-25 | the result doubled is the argument; a non-negative argument gives a result between zero and the argument |
| Numeric.HalfOfSumBetween | 2D_delaunay/2D_delaunay/numeric.h:21-25 | `half(lo + hi)` lies in `[lo, hi]` and is equally far from both ends |
| Marked.RemoveMarked | 2D_delaunay/2D_delaunay/delaunay.h:85-87 | compaction leaves as many elements as there are clear flags |
| Marked.Select | 2D_delaunay/2D_delaunay/delaunay.h:85-87 | the dropped elements number as many as the set flags |
| Marked.RemoveMarkedSnoc | 2D_delaunay/2D_delaunay/delaunay.h:85-87 | one more element survives compaction exactly when its flag is clear, and is dropped exactly when it is set |
| Marked.RemoveMarkedAppend | 2D_delaunay/2D_delaunay/delaunay.h:85-87 | compaction keeps the relative order: compacting a concatenation concatenates the compacted parts |
| Marked.RemoveMarkedMembers | 2D_delaunay/2D_delaunay/delaunay.h:102-104 | an element survives exactly when it stands at some position with a clear flag |
| Marked.SelectMembers | 2D_delaunay/2D_delaunay/delaunay.h:85-87 | an element is dropped exactly when it stands at some position with a set flag |
| Marked.Partition | 2D_delaunay/2D_delaunay/delaunay.h:112-114 | the kept and the dropped elements together are the original elements, with multiplicity, and their lengths add up |
| DelaunayTriangulation.BoundingBox | 2D_delaunay/2D_delaunay/delaunay.h:26-38 | the bounding loop computes the bounds `BoxOf` of the whole input |
| DelaunayTriangulation.BoxOfTight | 2D_delaunay/2D_delaunay/delaunay.h:26-38 | every input vertex lies in the bounds, and each of the four bounds is a coordinate of some input vertex |
| DelaunayTriangulation.DeltaMax | 2D_delaunay/2D_delaunay/delaunay.h:40-42 | `deltaMax` is the larger of the box's width and height |
| DelaunayTriangulation.SuperTriangle | 2D_delaunay/2D_delaunay/delaunay.h:40-49 | the corners are `(midx − 20Δ, midy − Δ)`, `(midx, midy + 20Δ)`, `(midx + 20Δ, midy − Δ)` with `mid = half(min + max)` and `Δ = deltaMax`: the apex lies above the middle of a horizontal base `40Δ` wide, `21Δ` below it |
| DelaunayTriangulation.SuperTriangleEncloses | 2D_delaunay/2D_delaunay/delaunay.h:40-49 | when the box has positive size, the super-triangle is clockwise and holds every point of the box strictly inside |
| DelaunayTriangulation.SuperCornersOutsideBox | 2D_delaunay/2D_delaunay/delaunay.h:40-49 | when the box has positive size, no corner of the super-triangle lies in the box, so none coincides with an input vertex |
| DelaunayTriangulation.ScanTriangles | 2D_delaunay/2D_delaunay/delaunay.h:64-83 | flag `i` is set exactly when triangle `i`'s circumcircle contains the point; the polygon is the `e1, e2, e3` of the flagged triangles in scan order |
| DelaunayTriangulation.KeptAndRemoved | 2D_delaunay/2D_delaunay/delaunay.h:64-87 | a triangle survives the erase exactly when its circumcircle does not contain the point; kept and removed triangles partition the old ones; the polygon holds three edges per removed triangle |
| DelaunayTriangulation.KeptPreservesOrder | 2D_delaunay/2D_delaunay/delaunay.h:85-87 | the erase keeps the surviving triangles in their relative order |
| DelaunayTriangulation.MarkSharedEdges | 2D_delaunay/2D_delaunay/delaunay.h:89-99 | after the nested loops, flag `k` is set exactly when entry `k` is almost equal to a later entry (as first argument) or to an earlier one (as second argument) |
| DelaunayTriangulation.SharedIffOtherMatch | 2D_delaunay/2D_delaunay/delaunay.h:89-99 | with a symmetric edge test, an entry is flagged exactly when it is almost equal to an entry at some other position |
| DelaunayTriangulation.BoundaryMembers | 2D_delaunay/2D_delaunay/delaunay.h:101-104 | an edge is on the cavity boundary exactly when it stands at an unflagged polygon position; the boundary is no longer than the polygon |
| DelaunayTriangulation.FanShape | 2D_delaunay/2D_delaunay/delaunay.h:106-107 | one new triangle `(e.p1, e.p2, p)` per boundary edge, in boundary order |
| DelaunayTriangulation.InsertStepShape | 2D_delaunay/2D_delaunay/delaunay.h:58-109 | after one insertion the kept triangles come first, in order, followed by exactly one fan triangle per boundary edge |
| DelaunayTriangulation.InsertStepCorners | 2D_delaunay/2D_delaunay/delaunay.h:58-109 | every triangle after an insertion is an old one, or has the inserted point as third corner and old corners as its other two |
| DelaunayTriangulation.InsertAllCorners | 2D_delaunay/2D_delaunay/delaunay.h:58-109 | across the whole insertion loop, every triangle is a starting one or is built from starting corners and inserted vertices, with an inserted vertex as third corner |
| DelaunayTriangulation.EdgesOfEnds | 2D_delaunay/2D_delaunay/delaunay.h:75-77 | both ends of every collected edge are corners of the triangles it was collected from |
| DelaunayTriangulation.FinalizeExcludesSuper | 2D_delaunay/2D_delaunay/delaunay.h:111-114 | the final erase keeps exactly the triangles for which `containsVertex` reports no super-triangle corner |
| DelaunayTriangulation.EdgesOfSnoc | 2D_delaunay/2D_delaunay/delaunay.h:116-121 | one more triangle appends its `e1, e2, e3` to the flattened edges |
| DelaunayTriangulation.EdgesOfShape | 2D_delaunay/2D_delaunay/delaunay.h:116-121 | the edge list holds three edges per triangle: `e1, e2, e3` of triangle `k` at positions `3k, 3k+1, 3k+2` |
| DelaunayTriangulation.Delaunay.constructor | 2D_delaunay/2D_delaunay/delaunay.h:130-133 | a new object has empty triangle, edge and vertex vectors |
| DelaunayTriangulation.Delaunay.GetTriangles | 2D_delaunay/2D_delaunay/delaunay.h:126 | returns the `_triangles` field |
| DelaunayTriangulation.Delaunay.GetEdges | 2D_delaunay/2D_delaunay/delaunay.h:127 | returns the `_edges` field |
| DelaunayTriangulation.Delaunay.GetVertices | 2D_delaunay/2D_delaunay/delaunay.h:128 | returns the `_vertices` field |
| DelaunayTriangulation.Delaunay.InsertVertex | 2D_delaunay/2D_delaunay/delaunay.h:58-109 | one pass of the insertion loop turns `_triangles` into `InsertStep` of the old triangles and changes nothing else |
| DelaunayTriangulation.Delaunay.AppendEdges | 2D_delaunay/2D_delaunay/delaunay.h:116-121 | the final loop appends the flattened edges of the final triangles to the old `_edges` and changes nothing else |
| DelaunayTriangulation.Delaunay.Triangulate | 2D_delaunay/2D_delaunay/delaunay.h:20-124 | `_vertices` becomes the input; `_triangles` becomes the finalised result of inserting every vertex into the old triangles plus the super-triangle; `_edges` gains the final triangles' edges; the returned triangles are `_triangles` |
| DelaunayTriangulation.TriangulateFresh | 2D_delaunay/2D_delaunay/delaunay.h:20-128 | the driver's sequence at `2D_delaunay/2D_delaunay/2D_delaunay.cpp:52-54` (a fresh object, `triangulate`, then `getEdges`): on a fresh object the result is the triangulation of the input, and the edge list holds three edges per triangle; when `containsVertex` compares exactly, every corner of every result triangle is an input vertex |
| DelaunayTriangulation.TriangulationUsesInputVertices | 2D_delaunay/2D_delaunay/delaunay.h:111-114 | when `containsVertex` compares exactly, the final erase leaves only triangles whose corners are all input vertices |
| ConvexHull.SamePoint | 2D_convex/2D_convex/2D_convex.cpp:19-21 | two points compare equal exactly when they are the same point |
| ConvexHull.LexLessIsStrictTotalOrder | 2D_convex/2D_convex/2D_convex.cpp:48-50 | the `(x, then y)` comparator is irreflexive, asymmetric, transitive and total on distinct points |
| ConvexHull.CrossProduct | 2D_convex/2D_convex/2D_convex.cpp:61-64 | the cross product is zero when either of the other points coincides with the first |
| ConvexHull.CrossProductAntisymmetric | 2D_convex/2D_convex/2D_convex.cpp:61-64 | swapping the last two points negates the cross product |
| ConvexHull.DistanceSquared | 2D_convex/2D_convex/2D_convex.cpp:66-71 | the squared distance is never negative and is zero from a point to itself |
| ConvexHull.SumOfSquaresSign | 2D_convex/2D_convex/2D_convex.cpp:68-70 | `dx * dx + dy * dy` is never negative and is positive unless both differences are zero |
| ConvexHull.DistanceSquaredSymmetric | 2D_convex/2D_convex/2D_convex.cpp:66-71 | the squared distance does not depend on the order of the points |
| ConvexHull.LeftmostIsFirstMinimum | 2D_convex/2D_convex/2D_convex.cpp:80-86 | the leftmost search settles on a smallest point by `(x, then y)`, and every earlier position holds a strictly larger point |
| ConvexHull.Leftmost | 2D_convex/2D_convex/2D_convex.cpp:80-86 | the first loop computes `LeftmostIndex` of the points |
| ConvexHull.Scan | 2D_convex/2D_convex/2D_convex.cpp:100-115 | the inner loop ends on an index other than `p` when its start candidate is not `p`, and on the start candidate or an index it has reached |
| ConvexHull.ScanKeepsBest | 2D_convex/2D_convex/2D_convex.cpp:100-115 | no index the scan reaches after its final candidate lies to the right of `p->q`, or on that line and farther from `p` |
| ConvexHull.NextIndex | 2D_convex/2D_convex/2D_convex.cpp:97-115 | the next hull index is a valid position other than the current one |
| ConvexHull.NextIndexUnbeatenAfter | 2D_convex/2D_convex/2D_convex.cpp:97-115 | every index after the next hull point `q` lies to the left of `p->q`, or on that line and no farther from `p` |
| ConvexHull.NextHullIndex | 2D_convex/2D_convex/2D_convex.cpp:97-115 | the inner loop computes `NextIndex` of the current point |
| ConvexHull.WalkRepeats | 2D_convex/2D_convex/2D_convex.cpp:91-119 | the hull walk is deterministic: two steps at the same index are followed by the same indices |
| ConvexHull.ClosedWalkIsSimple | 2D_convex/2D_convex/2D_convex.cpp:91-119 | a walk that first returns to its start after `m` steps visits `m` different indices, so `m` is at most the number of points |
| ConvexHull.GiftWrapping | 2D_convex/2D_convex/2D_convex.cpp:74-122 | fewer than three points come back unchanged; otherwise the hull starts at the leftmost point and lists the walk's points until the walk is back at it or `n + 1` points are collected, and every hull point is an input point |
| ConvexHull.ClosedHullIsSimple | 2D_convex/2D_convex/2D_convex.cpp:119 | a hull whose walk closes lists pairwise different input positions and has at most `n` points |
| ConvexHull.SortLex | 2D_convex/2D_convex/2D_convex.cpp:48-50 | the sort returns an ascending rearrangement of its input |
| ConvexHull.SortedArrangementIsUnique | 2D_convex/2D_convex/2D_convex.cpp:48-50 | two ascending rearrangements of the same points are equal |
| ConvexHull.Unique | 2D_convex/2D_convex/2D_convex.cpp:52-54 | `unique` never lengthens the sequence and empties only the empty one |
| ConvexHull.NearReflexive | 2D_convex/2D_convex/2D_convex.cpp:52-54 | every point is near itself under the `1e-9` predicate |
| ConvexHull.UniqueKeepsInputPoints | 2D_convex/2D_convex/2D_convex.cpp:52-56 | every kept point is an input point |
| ConvexHull.UniqueKeepsOrder | 2D_convex/2D_convex/2D_convex.cpp:52-56 | sorted input gives sorted output |
| ConvexHull.UniqueSeparates | 2D_convex/2D_convex/2D_convex.cpp:52-56 | no two neighbours of the result are near each other |
| ConvexHull.UniqueCovers | 2D_convex/2D_convex/2D_convex.cpp:52-56 | every input point is near some kept point |
| ConvexHull.StrictlyAscending | 2D_convex/2D_convex/2D_convex.cpp:48-56 | a sorted sequence whose neighbours are never near is strictly ascending |
| ConvexHull.RemoveRepeatedPoints | 2D_convex/2D_convex/2D_convex.cpp:48-58 | the deduplicated points are strictly ascending, no two neighbours are near, all are drawn points, every drawn point is near a kept one, and there are no more of them than were drawn |

## Left out

- `io.h`, the `2D_delaunay.cpp` driver program, `visualize.h`, the SFML rendering and the console display of the convex-hull program: file, window and console I/O.
- `triangle.h`, `edge.h` and `vector2.h` are not part of this model: `circumCircleContains`, `containsVertex` and the edge `almost_equal` are parameters (`Geometry`), and vertices are pairs of reals.
- The drawing of random points in `generateRandomPoints` (`random_device`, `mt19937`, uniform distributions): randomness. The drawn points are the parameter of `RemoveRepeatedPoints`.
- The CGAL programs: foreign library code.
- The generic `half` template (numeric.h:19), whose body returns nothing: only the `float` and `double` specialisations are modelled.
- Floating-point rounding: coordinates are reals, `epsilon` and `min` are free parameters of `Limits`, and `std::abs` is exact.
- DistanceSquared: does not state that the value is positive for distinct points, because the solver does not derive it from the sum-of-squares fact; `SumOfSquaresSign` states it for the two coordinate differences.
- Numeric.AlmostEqual: `ulp` is an unbounded integer; the `int` width of the source is not modelled.
- SuperTriangleEncloses: proved only for a box of positive size. When all input vertices coincide, `deltaMax` is zero and the three super-triangle corners collapse onto the midpoint; the model computes the same degenerate triangle without proving anything about it.
- DelaunayTriangulation.Delaunay.Triangulate: the source indexes `vertices[0]`, so an empty input is excluded by `requires`. `triangulate` does not check for a minimum of three points, and the model does not require it.
- ConvexHull.Unique: the C++ standard asks `std::unique`'s predicate to be an equivalence relation, and the `1e-9` nearness test is not transitive, so the standard leaves the result open. The model follows the usual library behaviour, comparing each point with the last point kept; `UniqueCovers` relies on that behaviour.
- In-place storage: the source vectors are modelled as sequences that each method reassigns, so aliasing of vector elements is not modelled. `std::remove_if` followed by `erase` is the function `RemoveMarked`, and the triangles' and edges' `isBad` members are sequences of flags parallel to the vectors.
- `std::sort` and `std::unique` are modelled by their results (`SortLex`, `Unique`), not by the library's in-place steps.
