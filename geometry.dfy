/** The geometric predicates of the triangulation: the signed-area test
    `_sld`, the sweep order `_vxh` and the vertex classification
    `_vertex_type`.  Coordinates are exact reals. */
module Geometry {

  datatype Point = Point(x: real, y: real)

  /** The cross product of the vectors `a -> b` and `a -> p`, an independent
      statement of the orientation test based at `a` rather than at `b`. */
  function Cross(a: Point, b: Point, p: Point): (r: real)
  {
    (b.x - a.x) * (p.y - a.y) - (b.y - a.y) * (p.x - a.x)
  }

  /** The signed area `_sld(a, b, p)`: positive when `p` lies left of the
      directed line from `a` to `b`, negative when it lies right of it.
      Although written from `b`, it is the cross product based at `a`. */
  function Sld(a: Point, b: Point, p: Point): (r: real)
    ensures r == Cross(a, b, p)
  {
    (p.x - b.x) * (a.y - b.y) - (p.y - b.y) * (a.x - b.x)
  }

  /** Reversing the direction of the line flips the sign; rotating the
      three points keeps it. */
  lemma SldSymmetries(a: Point, b: Point, p: Point)
    ensures Sld(b, a, p) == -Sld(a, b, p)
    ensures Sld(b, p, a) == Sld(a, b, p)
    ensures Sld(a, p, b) == -Sld(a, b, p)
  {
  }

  /** Every point of the line through `a` and `b` has signed area zero. */
  lemma SldCollinear(a: Point, b: Point, t: real)
    ensures Sld(a, b, Point(a.x + t * (b.x - a.x), a.y + t * (b.y - a.y))) == 0.0
  {
    var p := Point(a.x + t * (b.x - a.x), a.y + t * (b.y - a.y));
    calc {
      Sld(a, b, p);
      (a.x + t * (b.x - a.x) - b.x) * (a.y - b.y) - (a.y + t * (b.y - a.y) - b.y) * (a.x - b.x);
      (1.0 - t) * (a.x - b.x) * (a.y - b.y) - (1.0 - t) * (a.y - b.y) * (a.x - b.x);
    }
  }

  /** For a line pointing in the +x direction, "left" is "above": the sign
      of the signed area is the sign of `p.y - a.y`. */
  lemma SldLeftOfRightward(a: Point, b: Point, p: Point)
    requires a.y == b.y && a.x < b.x
    ensures Sld(a, b, p) > 0.0 <==> p.y > a.y
    ensures Sld(a, b, p) < 0.0 <==> p.y < a.y
    ensures Sld(a, b, p) == (b.x - a.x) * (p.y - a.y)
  {
  }

  /** The two calls at the end of main.py: a point above the line from
      (-1,-1) to (1,-1) gives +0.5, a point below it -0.5. */
  lemma SldDemo()
    ensures Sld(Point(-1.0, -1.0), Point(1.0, -1.0), Point(0.8, -0.75)) == 0.5
    ensures Sld(Point(-1.0, -1.0), Point(1.0, -1.0), Point(0.0, -1.25)) == -0.5
  {
  }

  /** The unit square, anticlockwise from the origin. */
  const UnitSquare: seq<Point> := [Point(0.0, 0.0), Point(1.0, 0.0), Point(1.0, 1.0), Point(0.0, 1.0)]

  /** Second docstring example: the centre of the unit square lies +0.5 to
      the left of every edge taken anticlockwise. */
  lemma SldUnitSquare(i: nat)
    requires i < 4
    ensures Sld(UnitSquare[i], UnitSquare[(i + 1) % 4], Point(0.5, 0.5)) == 0.5
  {
    if i == 0 {
      assert (i + 1) % 4 == 1;
    } else if i == 1 {
      assert (i + 1) % 4 == 2;
    } else if i == 2 {
      assert (i + 1) % 4 == 3;
    } else {
      assert (i + 1) % 4 == 0;
    }
  }

  /** `_vxh(p, q)`: `p` is above `q`, ties in y broken towards the smaller x. */
  predicate Higher(p: Point, q: Point)
    ensures Higher(p, q) ==> p.y >= q.y
    ensures p.y > q.y ==> Higher(p, q)
    ensures p == q ==> !Higher(p, q)
  {
    p.y > q.y || (p.y == q.y && p.x < q.x)
  }

  lemma HigherIsStrictTotalOrder(p: Point, q: Point, r: Point)
    ensures !Higher(p, p)
    ensures Higher(p, q) ==> !Higher(q, p)
    ensures Higher(p, q) && Higher(q, r) ==> Higher(p, r)
    ensures p != q ==> Higher(p, q) || Higher(q, p)
  {
  }

  /** "Not higher" is a total preorder: what an insertion sort keyed on
      `Higher` relies on. */
  lemma NotHigherIsTotalPreorder(p: Point, q: Point, r: Point)
    ensures !Higher(p, q) || !Higher(q, p)
    ensures !Higher(p, q) && !Higher(q, r) ==> !Higher(p, r)
  {
  }

  /** The five vertex kinds of the sweep. */
  datatype Kind = Start | Split | End | Merge | Regular

  /** `_vertex_type`: classifies `v` from its ring predecessor and successor. */
  function VertexType(v: Point, prev: Point, next: Point): (k: Kind)
    ensures k == Start || k == Split <==> Higher(v, prev) && Higher(v, next)
    ensures k == End || k == Merge <==> !Higher(v, prev) && !Higher(v, next)
  {
    var abovePrev := Higher(v, prev);
    var aboveNext := Higher(v, next);
    if abovePrev && aboveNext then
      (if prev.x >= next.x then Start else Split)
    else if !abovePrev && !aboveNext then
      (if prev.x <= next.x then End else Merge)
    else
      Regular
  }

  /** The classification in terms of the order: start and split vertices lie
      above both neighbours, end and merge vertices above neither, and the
      x coordinates of the neighbours separate the convex from the reflex
      case. */
  lemma VertexTypeCases(v: Point, prev: Point, next: Point)
    ensures VertexType(v, prev, next) == Start <==> Higher(v, prev) && Higher(v, next) && prev.x >= next.x
    ensures VertexType(v, prev, next) == Split <==> Higher(v, prev) && Higher(v, next) && prev.x < next.x
    ensures VertexType(v, prev, next) == End <==> !Higher(v, prev) && !Higher(v, next) && prev.x <= next.x
    ensures VertexType(v, prev, next) == Merge <==> !Higher(v, prev) && !Higher(v, next) && prev.x > next.x
    ensures VertexType(v, prev, next) == Regular <==> Higher(v, prev) != Higher(v, next)
  {
  }

  /** The x comparison is not a turn test: this top vertex is a reflex
      corner of an anticlockwise ring (a right turn), yet it is called a
      start vertex. */
  lemma StartNeedNotBeConvex()
    ensures VertexType(Point(0.0, 0.0), Point(1.0, -10.0), Point(0.9, -0.1)) == Start
    ensures Sld(Point(1.0, -10.0), Point(0.0, 0.0), Point(0.9, -0.1)) < 0.0
  {
  }

  /** The eight-point star the source triangulates in its own `__main__`. */
  const Star: seq<Point> := [
    Point(-1.0, -2.0), Point(0.0, -1.0), Point(1.0, -2.0), Point(2.0, 0.0),
    Point(1.0, 2.0), Point(0.0, 1.0), Point(-1.0, 2.0), Point(-2.0, 0.0)]

  /** The kind of the `i`-th vertex of a ring, from its ring neighbours. */
  function RingKind(ring: seq<Point>, i: nat): (k: Kind)
    requires i < |ring|
  {
    VertexType(ring[i], ring[(i + |ring| - 1) % |ring|], ring[(i + 1) % |ring|])
  }

  /** The star has one split vertex (its lower notch) and one merge vertex
      (its upper notch); all other vertices are start, end or regular. */
  lemma StarKinds()
    ensures RingKind(Star, 0) == End && RingKind(Star, 1) == Split
    ensures RingKind(Star, 2) == End && RingKind(Star, 3) == Regular
    ensures RingKind(Star, 4) == Start && RingKind(Star, 5) == Merge
    ensures RingKind(Star, 6) == Start && RingKind(Star, 7) == Regular
  {
  }
}
