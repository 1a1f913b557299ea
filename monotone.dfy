/** Triangulation of one y-monotone piece, `TriangleSweep._chain` and
    `TriangleSweep.monotone_triangulation`.  A piece is a sequence of
    indices into the polygon's vertex positions `pos`; a triangle is a
    sequence of three such indices. */
module Monotone {
  import opened Wrappers
  import opened Geometry
  import opened Sweep
  import opened Dcel

  /** `_chain`: +1 (left chain) when the polygon vertex before `j` is
      higher than `j`, -1 (right chain) otherwise.  The predecessor of
      vertex 0 is the last vertex, as Python's index -1 gives. */
  function Chain(pos: seq<Point>, j: nat): (c: int)
    requires j < |pos|
    ensures c == 1 || c == -1
    ensures c == 1 <==> Higher(pos[if j == 0 then |pos| - 1 else j - 1], pos[j])
  {
    if Higher(pos[if j == 0 then |pos| - 1 else j - 1], pos[j]) then 1 else -1
  }

  /** On the ring the mesh constructor builds, the vertex before `j` in
      the list is the origin of the half-edge before `j`'s, so `_chain`
      puts `j` on the left chain exactly when its ring predecessor, as
      `Vertex.prev()` finds it through the mesh, is higher. */
  lemma ChainOnRing(mesh: Mesh, pos: seq<Point>, v: nat)
    requires mesh.Valid() && mesh.Anchored() && |mesh.edges| == |mesh.verts| && v < |mesh.verts|
    requires forall i :: 0 <= i < |mesh.edges| ==>
      mesh.edges[i] == ConnEdge(i, 0, None, (i - 1) % |mesh.edges|, (i + 1) % |mesh.edges|, None)
    requires |pos| == |mesh.verts| && forall i :: 0 <= i < |pos| ==> pos[i] == mesh.Pos(i)
    ensures Chain(pos, v) == 1 <==> Higher(mesh.Pos(mesh.Prev(v)), mesh.Pos(v))
  {
    mesh.RingNeighbours(v);
    if v == 0 {
      ModMinusOne(|pos|);
    } else {
      ModSmall(v - 1, |pos|);
    }
  }

  /** `_chain` ignores the piece it is given and looks at the polygon's
      list order.  In the piece `[5, 6, 7, 0, 1]` the diagonal from the
      star's split vertex 1 to its merge vertex 5 cuts off, vertex 5
      follows vertex 1, which is lower, yet `_chain` puts 5 on the left
      chain because the list's vertex 4 is higher. */
  lemma ChainIgnoresPiece()
    ensures Chain(Star, 5) == 1
    ensures RingKind(Star, 1) == Split && RingKind(Star, 5) == Merge
    ensures !Higher(Star[1], Star[5])
  {
    StarKinds();
  }

  /** `q[-j-1]`: the `j`-th entry of the queue counted from its top. */
  function Top(q: seq<nat>, j: nat): (v: nat)
    requires j < |q|
  {
    q[|q| - 1 - j]
  }

  /** A triangle of the piece that is closed at its first corner: all
      three corners are vertices of the piece, and the first is not higher
      than the other two. */
  ghost predicate ClosedAtLowest(pos: seq<Point>, piece: seq<nat>, t: seq<nat>)
  {
    && |t| == 3
    && t[0] in piece && t[1] in piece && t[2] in piece
    && t[0] < |pos| && t[1] < |pos| && t[2] < |pos|
    && !Higher(pos[t[0]], pos[t[1]]) && !Higher(pos[t[0]], pos[t[2]])
  }

  /** The triangle a three-vertex piece becomes: the piece's first vertex
      first, its three vertices in some order, wound anticlockwise unless
      the three are collinear. */
  ghost predicate Wound(pos: seq<Point>, piece: seq<nat>, t: seq<nat>)
    requires |piece| == 3 && forall i :: 0 <= i < 3 ==> piece[i] < |pos|
  {
    && |t| == 3 && t[0] == piece[0] && multiset(t) == multiset(piece)
    && t[1] < |pos| && t[2] < |pos|
    && Sld(pos[t[0]], pos[t[1]], pos[t[2]]) >= 0.0
    && (Sld(pos[piece[0]], pos[piece[1]], pos[piece[2]]) != 0.0 ==> Sld(pos[t[0]], pos[t[1]], pos[t[2]]) > 0.0)
  }

  /** The three-vertex case of `monotone_triangulation`: the piece as
      given when it turns left, with its last two vertices swapped
      otherwise. */
  function Triangle(pos: seq<Point>, piece: seq<nat>): (t: seq<nat>)
    requires |piece| == 3 && forall i :: 0 <= i < 3 ==> piece[i] < |pos|
    ensures Wound(pos, piece, t)
  {
    var a, b, c := piece[0], piece[1], piece[2];
    SldSymmetries(pos[a], pos[b], pos[c]);
    assert piece == [a, b, c];
    if Sld(pos[a], pos[b], pos[c]) > 0.0 then [a, b, c]
    else
      assert multiset([a, c, b]) == multiset([a, b, c]);
      [a, c, b]
  }

  /** A triangle formed at queue position `j` from two positions above it
      is closed at its first corner. */
  lemma TriangleAt(pos: seq<Point>, piece: seq<nat>, q: seq<nat>, j: nat, a: nat, b: nat)
    requires multiset(q) == multiset(piece)
    requires forall i :: 0 <= i < |q| ==> q[i] < |pos|
    requires QueueOrdered(pos, q)
    requires a < j && b < j && j < |q|
    ensures ClosedAtLowest(pos, piece, [Top(q, j), Top(q, a), Top(q, b)])
    ensures ClosedAtLowest(pos, piece, [Top(q, j), Top(q, b), Top(q, a)])
  {
    forall i | 0 <= i < |q|
      ensures q[i] in piece
    {
      assert q[i] in multiset(q);
    }
  }

  /** The Python values `_q` can be handed: an integer, as
      `monotone_triangulation` passes the piece's vertex indices, or a
      vertex object at a position. */
  datatype PyValue = PInt(n: int) | PVertex(p: Point)

  ghost predicate AllVertices(vs: seq<PyValue>)
  {
    forall i :: 0 <= i < |vs| ==> vs[i].PVertex?
  }

  /** The values are queued from lowest to highest, as `QueueOrdered`
      orders vertex indices. */
  ghost predicate ValuesOrdered(q: seq<PyValue>)
    requires AllVertices(q)
  {
    forall i, j :: 0 <= i < j < |q| ==> !Higher(q[i].p, q[j].p)
  }

  /** `_vxh` on Python values: it reads `.y` (and `.x`) of both arguments,
      which raises AttributeError on an integer; on two vertices it is the
      order `Higher`. */
  function VxhValue(p: PyValue, q: PyValue): (r: Result<bool>)
    ensures r.Err? <==> p.PInt? || q.PInt?
    ensures r.Err? ==> r.error == AttributeError
    ensures r.Ok? ==> (r.value <==> Higher(p.p, q.p))
  {
    match (p, q)
    case (PVertex(a), PVertex(b)) => Ok(Higher(a, b))
    case _ => Err(AttributeError)
  }

  /** Inserting a vertex value below the first entry it is not higher than
      keeps the values ordered. */
  lemma InsertKeepsValueOrder(q: seq<PyValue>, v: PyValue, at: nat)
    requires AllVertices(q) && ValuesOrdered(q) && v.PVertex? && at <= |q|
    requires forall m :: 0 <= m < at ==> Higher(v.p, q[m].p)
    requires at < |q| ==> !Higher(v.p, q[at].p)
    ensures AllVertices(q[..at] + [v] + q[at..])
    ensures ValuesOrdered(q[..at] + [v] + q[at..])
  {
    var q2 := q[..at] + [v] + q[at..];
    forall i, j | 0 <= i < j < |q2|
      ensures !Higher(q2[i].p, q2[j].p)
    {
      if j == at {
        assert q2[i] == q[i];
        HigherIsStrictTotalOrder(v.p, q[i].p, v.p);
      } else if i == at {
        assert q2[j] == q[j - 1];
        NotHigherIsTotalPreorder(v.p, q[at].p, q[j - 1].p);
      } else {
        assert q2[i] == q[if i < at then i else i - 1];
        assert q2[j] == q[if j < at then j else j - 1];
      }
    }
  }

  /** The inner loop of `_q` as written: compares `v` through `_vxh` with
      the queued entries from the bottom up and stops comparing at the
      first entry `v` is not higher than; that entry's position is where
      `q.index(entry)` inserts.  The first comparison, with the bottom
      entry, raises AttributeError when either value is an integer. */
  method ScanValues(q: seq<PyValue>, v: PyValue) returns (r: Result<nat>)
    requires |q| == 1 || (|q| > 1 && AllVertices(q))
    ensures r.Err? <==> v.PInt? || q[0].PInt?
    ensures r.Err? ==> r.error == AttributeError
    ensures r.Ok? ==> v.PVertex? && AllVertices(q) && r.value <= |q|
    ensures r.Ok? ==> forall m :: 0 <= m < r.value ==> Higher(v.p, q[m].p)
    ensures r.Ok? && r.value < |q| ==> !Higher(v.p, q[r.value].p)
  {
    var inserted := false;
    var at: nat := |q|;
    for j := 0 to |q|
      invariant j >= 1 ==> v.PVertex? && q[0].PVertex?
      invariant !inserted ==> (at == |q|
        && forall m :: 0 <= m < j ==> v.PVertex? && q[m].PVertex? && Higher(v.p, q[m].p))
      invariant inserted ==> (at < j <= |q| && v.PVertex? && q[at].PVertex? && !Higher(v.p, q[at].p)
        && forall m :: 0 <= m < at ==> q[m].PVertex? && Higher(v.p, q[m].p))
    {
      if !inserted {
        var h := VxhValue(v, q[j]);
        if h.Err? {
          return Err(h.error);
        }
        if !h.value {
          at := FirstIndex(q, q[j]);
          inserted := true;
        }
      }
    }
    return Ok(at);
  }

  /** One round of `_q`'s outer loop as written: the first value is
      queued without a comparison; a later one is inserted where
      `ScanValues` finds (once inserted, the source's loop over the grown
      queue makes no further comparison) or appended. */
  method EnqueueValue(q: seq<PyValue>, v: PyValue) returns (r: Result<seq<PyValue>>)
    requires |q| <= 1 || AllVertices(q)
    requires AllVertices(q) ==> ValuesOrdered(q)
    ensures q == [] ==> r == Ok([v])
    ensures q != [] ==> (r.Err? <==> v.PInt? || q[0].PInt?)
    ensures r.Err? ==> r.error == AttributeError
    ensures r.Ok? ==> multiset(r.value) == multiset(q) + multiset{v}
    ensures r.Ok? && q != [] ==> v.PVertex? && AllVertices(q) && AllVertices(r.value) && ValuesOrdered(r.value)
  {
    if q == [] {
      return Ok([v]);
    }
    var at := ScanValues(q, v);
    if at.Err? {
      return Err(at.error);
    }
    InsertKeepsValueOrder(q, v, at.value);
    assert q == q[..at.value] + q[at.value..];
    r := Ok(q[..at.value] + [v] + q[at.value..]);
  }

  /** `_q` as written, on Python values.  Any integer among two or more
      values is read through `_vxh` and raises AttributeError; one value
      or none is returned as given. */
  method QueueValues(vs: seq<PyValue>) returns (r: Result<seq<PyValue>>)
    ensures r.Err? <==> |vs| >= 2 && !AllVertices(vs)
    ensures r.Err? ==> r.error == AttributeError
    ensures |vs| <= 1 ==> r == Ok(vs)
    ensures r.Ok? ==> multiset(r.value) == multiset(vs)
    ensures r.Ok? && |vs| >= 2 ==> AllVertices(r.value) && ValuesOrdered(r.value)
  {
    var q: seq<PyValue> := [];
    for i := 0 to |vs|
      invariant multiset(q) == multiset(vs[..i])
      invariant i <= 1 ==> q == vs[..i]
      invariant i >= 2 ==> AllVertices(vs[..i]) && AllVertices(q) && ValuesOrdered(q)
    {
      var step := EnqueueValue(q, vs[i]);
      if step.Err? {
        assert vs[i].PInt? || vs[0].PInt?;
        return Err(step.error);
      }
      assert vs[..i + 1] == vs[..i] + [vs[i]];
      q := step.value;
    }
    assert vs[..|vs|] == vs;
    r := Ok(q);
  }

  /** `monotone_triangulation` as written: fewer than three vertices raise
      IndexError and three give one triangle; any larger piece hands its
      integer vertex indices to `_q`, which raises AttributeError, so the
      rest of the routine is never reached. */
  method TriangulateAsWritten(pos: seq<Point>, piece: seq<nat>) returns (r: Result<seq<seq<nat>>>)
    requires forall i :: 0 <= i < |piece| ==> piece[i] < |pos|
    ensures |piece| < 3 ==> r == Err(IndexError)
    ensures |piece| == 3 ==> r == Ok([Triangle(pos, piece)])
    ensures |piece| >= 4 ==> r == Err(AttributeError)
  {
    if |piece| < 3 {
      return Err(IndexError);
    }
    if |piece| == 3 {
      return Ok([Triangle(pos, piece)]);
    }
    var values := seq(|piece|, i requires 0 <= i < |piece| => PInt(piece[i]));
    assert values[0].PInt?;
    var q := QueueValues(values);
    r := Err(q.error);
  }

  /** `monotone_triangulation`, with the queue keyed by the positions of
      the piece's vertices.  A three-vertex piece is one triangle wound
      anticlockwise.  Otherwise the vertices are taken from the top of the
      queue down; a vertex on the other chain than the stack's top is
      joined to every stacked vertex, one on the same chain to the stacked
      vertices while the turn test agrees with its chain.  Each triangle
      is recorded with the current vertex first.  The diagonals the source
      collects in `D` are not modelled. */
  method MonotoneTriangulation(pos: seq<Point>, piece: seq<nat>) returns (r: Result<seq<seq<nat>>>)
    requires forall i :: 0 <= i < |piece| ==> piece[i] < |pos|
    ensures r.Err? <==> |piece| < 3
    ensures r.Err? ==> r.error == IndexError
    ensures |piece| == 3 ==> r.Ok? && |r.value| == 1 && Wound(pos, piece, r.value[0])
    ensures |piece| > 3 && r.Ok? ==> forall t :: t in r.value ==> ClosedAtLowest(pos, piece, t)
  {
    var n := |piece|;
    if n < 3 {
      return Err(IndexError);
    }
    if n == 3 {
      return Ok([Triangle(pos, piece)]);
    }
    var indices: seq<seq<nat>> := [];
    var q := PriorityQueue(pos, piece);
    assert |q| == n by {
      assert |multiset(q)| == |q|;
    }
    var S: seq<nat> := [0, 1];
    for j := 2 to n - 1
      invariant |S| >= 2 && forall a :: 0 <= a < |S| ==> S[a] < j
      invariant forall t :: t in indices ==> ClosedAtLowest(pos, piece, t)
    {
      if Chain(pos, Top(q, j)) != Chain(pos, Top(q, S[|S| - 1])) {
        while |S| > 1
          invariant |S| >= 1 && forall a :: 0 <= a < |S| ==> S[a] < j
          invariant forall t :: t in indices ==> ClosedAtLowest(pos, piece, t)
        {
          var p := S[|S| - 1];
          S := S[..|S| - 1];
          var top := S[|S| - 1];
          TriangleAt(pos, piece, q, j, p, top);
          if Chain(pos, Top(q, j)) > 0 {
            indices := indices + [[Top(q, j), Top(q, p), Top(q, top)]];
          } else {
            indices := indices + [[Top(q, j), Top(q, top), Top(q, p)]];
          }
        }
        S := S[..|S| - 1];
        S := S + [j - 1];
        S := S + [j];
      } else {
        var l: nat := S[|S| - 1];
        S := S[..|S| - 1];
        var k: nat := S[|S| - 1];
        var triwind := Sld(pos[Top(q, j)], pos[Top(q, k)], pos[Top(q, l)]) > 0.0;
        var chain := Chain(pos, Top(q, j)) > 0;
        while |S| > 0 && triwind == chain
          invariant k < j && l < j && forall a :: 0 <= a < |S| ==> S[a] < j
          invariant forall t :: t in indices ==> ClosedAtLowest(pos, piece, t)
        {
          l := k;
          k := S[|S| - 1];
          triwind := Sld(pos[Top(q, j)], pos[Top(q, k)], pos[Top(q, l)]) > 0.0;
          S := S[..|S| - 1];
          TriangleAt(pos, piece, q, j, l, k);
          if Chain(pos, Top(q, j)) > 0 {
            indices := indices + [[Top(q, j), Top(q, l), Top(q, k)]];
          } else {
            indices := indices + [[Top(q, j), Top(q, k), Top(q, l)]];
          }
        }
        S := S + [l];
        S := S + [j];
      }
    }
    r := Ok(indices);
  }
}
