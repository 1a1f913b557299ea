/** The plane sweep of tri.py's `TriangleSweep`: the priority queue `_q`,
    the search for the edge directly left of a vertex, and the five vertex
    handlers.  The status structure `T` holds vertices (each standing for
    its outgoing half-edge), `queueD` collects the diagonals to insert as
    (vertex, helper) pairs, and helpers live on the mesh's half-edges. */
module Sweep {
  import opened Wrappers
  import opened Geometry
  import opened Dcel

  /** `_q`'s order: no entry is higher than an entry after it, so the
      highest vertex is the last and `pop()` returns it first. */
  ghost predicate QueueOrdered(pos: seq<Point>, q: seq<nat>)
    requires forall i :: 0 <= i < |q| ==> q[i] < |pos|
  {
    forall i, j :: 0 <= i < j < |q| ==> !Higher(pos[q[i]], pos[q[j]])
  }

  /** Putting `v` in front of the first entry it is not higher than keeps
      the queue ordered. */
  lemma InsertKeepsOrder(pos: seq<Point>, q: seq<nat>, v: nat, at: nat)
    requires forall i :: 0 <= i < |q| ==> q[i] < |pos|
    requires v < |pos| && at <= |q| && QueueOrdered(pos, q)
    requires forall m :: 0 <= m < at ==> Higher(pos[v], pos[q[m]])
    requires at < |q| ==> !Higher(pos[v], pos[q[at]])
    ensures forall i :: 0 <= i < |q| + 1 ==> (q[..at] + [v] + q[at..])[i] < |pos|
    ensures QueueOrdered(pos, q[..at] + [v] + q[at..])
  {
    var q2 := q[..at] + [v] + q[at..];
    forall i | 0 <= i < |q2|
      ensures q2[i] == if i < at then q[i] else if i == at then v else q[i - 1]
    {
    }
    forall i, j | 0 <= i < j < |q2|
      ensures !Higher(pos[q2[i]], pos[q2[j]])
    {
      if j == at {
        assert Higher(pos[v], pos[q[i]]);
      } else if i == at {
        assert !Higher(pos[v], pos[q[at]]);
        if j - 1 > at {
          assert !Higher(pos[q[at]], pos[q[j - 1]]);
        }
      }
    }
  }

  /** The inner loop of `_q`: the first queued vertex that `v` is not
      higher than (the length of the queue when there is none). */
  method InsertionPoint(pos: seq<Point>, q: seq<nat>, v: nat) returns (at: nat)
    requires forall i :: 0 <= i < |q| ==> q[i] < |pos|
    requires v < |pos|
    ensures at <= |q|
    ensures forall m :: 0 <= m < at ==> Higher(pos[v], pos[q[m]])
    ensures at < |q| ==> !Higher(pos[v], pos[q[at]])
  {
    var inserted := false;
    at := |q|;
    for j := 0 to |q|
      invariant !inserted ==> at == |q| && forall m :: 0 <= m < j ==> Higher(pos[v], pos[q[m]])
      invariant inserted ==> at < j && !Higher(pos[v], pos[q[at]])
      invariant inserted ==> forall m :: 0 <= m < at ==> Higher(pos[v], pos[q[m]])
    {
      if !inserted && !Higher(pos[v], pos[q[j]]) {
        at, inserted := j, true;
      }
    }
  }

  /** One round of `_q`'s outer loop: `v` goes in front of the first
      queued vertex it is not higher than, or at the end. */
  method Enqueue(pos: seq<Point>, q: seq<nat>, v: nat) returns (q2: seq<nat>)
    requires forall i :: 0 <= i < |q| ==> q[i] < |pos|
    requires v < |pos| && QueueOrdered(pos, q)
    ensures multiset(q2) == multiset(q) + multiset{v}
    ensures forall i :: 0 <= i < |q2| ==> q2[i] < |pos|
    ensures QueueOrdered(pos, q2)
  {
    if q == [] {
      q2 := [v];
    } else {
      var at := InsertionPoint(pos, q, v);
      InsertKeepsOrder(pos, q, v, at);
      assert q == q[..at] + q[at..];
      q2 := q[..at] + [v] + q[at..];
    }
  }

  /** `_q`: inserts each vertex, in input order, in front of the first
      queued vertex it is not higher than (at the end when there is none).
      The result holds the same vertices and is ordered lowest first. */
  method PriorityQueue(pos: seq<Point>, vs: seq<nat>) returns (q: seq<nat>)
    requires forall i :: 0 <= i < |vs| ==> vs[i] < |pos|
    ensures multiset(q) == multiset(vs)
    ensures forall i :: 0 <= i < |q| ==> q[i] < |pos|
    ensures QueueOrdered(pos, q)
  {
    q := [];
    for i := 0 to |vs|
      invariant multiset(q) == multiset(vs[..i])
      invariant forall m :: 0 <= m < |q| ==> q[m] < |pos|
      invariant QueueOrdered(pos, q)
    {
      q := Enqueue(pos, q, vs[i]);
      assert vs[..i + 1] == vs[..i] + [vs[i]];
    }
    assert vs[..|vs|] == vs;
  }

  /** The edge from `o` to `n` reaches the height of `p`. */
  predicate Straddles(o: Point, n: Point, p: Point)
    ensures Straddles(o, n, p) <==>
      (if o.y <= n.y then o.y else n.y) <= p.y <= (if o.y <= n.y then n.y else o.y)
  {
    (o.y >= p.y && n.y <= p.y) || (o.y <= p.y && n.y >= p.y)
  }

  /** Where the line through `o` and `n` meets the horizontal line
      through `p`. */
  function XAt(o: Point, n: Point, p: Point): (x: real)
    requires n.y != o.y
    ensures Straddles(o, n, p) ==>
      (if o.x <= n.x then o.x else n.x) <= x <= (if o.x <= n.x then n.x else o.x)
  {
    var t := (p.y - o.y) / (n.y - o.y);
    assert Straddles(o, n, p) ==> 0.0 <= t <= 1.0 by {
      if Straddles(o, n, p) {
        FractionInUnit(p.y - o.y, n.y - o.y);
      }
    }
    ScaledBetween(o.x, n.x, t);
    t * (n.x - o.x) + o.x
  }

  /** `a / b` lies in [0, 1] when `a` lies between 0 and `b`. */
  lemma FractionInUnit(a: real, b: real)
    requires b != 0.0 && ((0.0 <= a <= b) || (b <= a <= 0.0))
    ensures 0.0 <= a / b <= 1.0
  {
    if b > 0.0 {
      assert a / b * b == a;
    } else {
      assert (-a) / (-b) == a / b;
    }
  }

  /** `o + t (n - o)` lies between `o` and `n` for `t` in [0, 1]. */
  lemma ScaledBetween(o: real, n: real, t: real)
    ensures 0.0 <= t <= 1.0 ==>
      (if o <= n then o else n) <= t * (n - o) + o <= (if o <= n then n else o)
  {
    if 0.0 <= t <= 1.0 {
      var d := if o <= n then n - o else o - n;
      MulNonneg(t, d);
      MulNonneg(1.0 - t, d);
      assert d - t * d == (1.0 - t) * d;
      if o <= n {
        assert t * (n - o) == t * d;
      } else {
        assert t * (n - o) == -(t * d);
      }
    }
  }

  lemma MulNonneg(a: real, b: real)
    requires a >= 0.0 && b >= 0.0
    ensures a * b >= 0.0
  {
  }

  /** The intersection lies on the edge's line: its signed area with the
      edge is zero. */
  lemma XAtOnLine(o: Point, n: Point, p: Point)
    requires n.y != o.y
    ensures Sld(o, n, Point(XAt(o, n, p), p.y)) == 0.0
  {
    var t := (p.y - o.y) / (n.y - o.y);
    assert t * (n.y - o.y) == p.y - o.y;
    assert Point(XAt(o, n, p), p.y) == Point(o.x + t * (n.x - o.x), o.y + t * (n.y - o.y));
    SldCollinear(o, n, t);
  }

  /** Vertex `u`'s outgoing half-edge has a helper. */
  ghost predicate HelperSet(vs: seq<Vertex>, es: seq<ConnEdge>, u: nat)
    requires u < |vs|
  {
    vs[u].e.Some? && vs[u].e.value < |es| && es[vs[u].e.value].helper.Some?
  }

  /** The state of a `TriangleSweep` between handler calls. */
  class TriangleSweep {
    const mesh: Mesh
    var T: seq<nat>
    var queueD: seq<(nat, Option<nat>)>

    /** The mesh is well formed and every vertex has its edge; every vertex
        in `T` is a vertex of the mesh whose edge has a helper. */
    ghost predicate Valid()
      reads this, mesh
    {
      && mesh.Valid() && mesh.Anchored()
      && forall m :: 0 <= m < |T| ==> T[m] < |mesh.verts| && HelperSet(mesh.verts, mesh.edges, T[m])
    }

    /** The state `sweep()` starts from: empty `T` and `queueD`. */
    constructor (m: Mesh)
      requires m.Valid() && m.Anchored()
      ensures Valid() && mesh == m && T == [] && queueD == []
    {
      mesh := m;
      T := [];
      queueD := [];
    }

    ghost predicate InMesh(Ts: seq<nat>)
      reads mesh
    {
      forall m :: 0 <= m < |Ts| ==> Ts[m] < |mesh.verts|
    }

    /** The end points of the outgoing half-edge of `u`. */
    function Seg(u: nat): (seg: (Point, Point))
      reads mesh
      requires mesh.Valid() && mesh.Anchored() && u < |mesh.verts|
    {
      var e := mesh.EdgeOf(u);
      assert InRange(mesh.edges[e], |mesh.verts|, |mesh.edges|, mesh.faces);
      (mesh.Pos(mesh.edges[e].origin), mesh.Pos(mesh.edges[mesh.edges[e].next].origin))
    }

    /** `u`'s edge reaches the height of `v` and lies flat there: the
        intercept divides by zero. */
    predicate Flat(u: nat, v: nat)
      reads mesh
      requires mesh.Valid() && mesh.Anchored() && u < |mesh.verts| && v < |mesh.verts|
    {
      Straddles(Seg(u).0, Seg(u).1, mesh.Pos(v)) && Seg(u).0.y == Seg(u).1.y
    }

    /** `u`'s edge crosses the height of `v` at a single point. */
    predicate Crosses(u: nat, v: nat)
      reads mesh
      requires mesh.Valid() && mesh.Anchored() && u < |mesh.verts| && v < |mesh.verts|
    {
      Straddles(Seg(u).0, Seg(u).1, mesh.Pos(v)) && Seg(u).0.y != Seg(u).1.y
    }

    function X(u: nat, v: nat): (x: real)
      reads mesh
      requires mesh.Valid() && mesh.Anchored() && u < |mesh.verts| && v < |mesh.verts|
      requires Crosses(u, v)
    {
      XAt(Seg(u).0, Seg(u).1, mesh.Pos(v))
    }

    /** `u`'s edge crosses the height of `v` strictly left of `v`. */
    predicate LeftOf(u: nat, v: nat)
      reads mesh
      requires mesh.Valid() && mesh.Anchored() && u < |mesh.verts| && v < |mesh.verts|
    {
      Crosses(u, v) && X(u, v) < mesh.Pos(v).x
    }

    /** Entry `at` of `Ts` is the one the search keeps: left of `v`, with
        the smallest intercept, and the first of those. */
    ghost predicate IsLeftEdge(Ts: seq<nat>, v: nat, at: int)
      reads mesh
      requires mesh.Valid() && mesh.Anchored() && v < |mesh.verts| && InMesh(Ts)
    {
      && 0 <= at < |Ts| && LeftOf(Ts[at], v)
      && (forall m :: 0 <= m < |Ts| && LeftOf(Ts[m], v) ==> X(Ts[at], v) <= X(Ts[m], v))
      && (forall m :: 0 <= m < at && LeftOf(Ts[m], v) ==> X(Ts[at], v) < X(Ts[m], v))
    }

    /** The search keeps at most one entry. */
    lemma LeftEdgeUnique(Ts: seq<nat>, v: nat, a: int, b: int)
      requires mesh.Valid() && mesh.Anchored() && v < |mesh.verts| && InMesh(Ts)
      requires IsLeftEdge(Ts, v, a) && IsLeftEdge(Ts, v, b)
      ensures a == b
    {
    }

    ghost predicate NoFlat(Ts: seq<nat>, v: nat)
      reads mesh
      requires mesh.Valid() && mesh.Anchored() && v < |mesh.verts| && InMesh(Ts)
    {
      forall m :: 0 <= m < |Ts| ==> !Flat(Ts[m], v)
    }

    ghost predicate AnyLeft(Ts: seq<nat>, v: nat)
      reads mesh
      requires mesh.Valid() && mesh.Anchored() && v < |mesh.verts| && InMesh(Ts)
    {
      exists m :: 0 <= m < |Ts| && LeftOf(Ts[m], v)
    }

    /** The loop shared by the split, merge and regular handlers: over the
        vertices in `T`, the edge whose intercept with the height of `v` is
        left of `v` and smallest so far (`float('inf')` becomes None).  A
        flat edge at that height divides by zero; no edge left of `v`
        leaves the result None. */
    method LeftEdge(v: nat) returns (r: Result<Option<nat>>, ghost at: int)
      requires Valid() && v < |mesh.verts|
      ensures InMesh(T)
      ensures r.Err? <==> !NoFlat(T, v)
      ensures r.Err? ==> r.error == ZeroDivisionError
      ensures r.Ok? ==> (r.value.None? <==> !AnyLeft(T, v))
      ensures r.Ok? && r.value.Some? ==> IsLeftEdge(T, v, at) && r.value.value == mesh.EdgeOf(T[at])
    {
      var best: Option<nat> := None;
      var bestX: Option<real> := None;
      at := -1;
      var p := mesh.Pos(v);
      for i := 0 to |T|
        invariant forall m :: 0 <= m < i ==> !Flat(T[m], v)
        invariant best.None? <==> bestX.None?
        invariant best.None? ==> forall m :: 0 <= m < i ==> !LeftOf(T[m], v)
        invariant best.Some? ==> 0 <= at < i && LeftOf(T[at], v)
        invariant best.Some? ==> best.value == mesh.EdgeOf(T[at]) && bestX.value == X(T[at], v)
        invariant best.Some? ==> forall m :: 0 <= m < i && LeftOf(T[m], v) ==> X(T[at], v) <= X(T[m], v)
        invariant best.Some? ==> forall m :: 0 <= m < at && LeftOf(T[m], v) ==> X(T[at], v) < X(T[m], v)
      {
        var edge := mesh.EdgeOf(T[i]);
        var o, n := Seg(T[i]).0, Seg(T[i]).1;
        if (o.y >= p.y && n.y <= p.y) || (o.y <= p.y && n.y >= p.y) {
          if n.y == o.y {
            assert Flat(T[i], v);
            return Err(ZeroDivisionError), at;
          }
          var xt := ((p.y - o.y) / (n.y - o.y)) * (n.x - o.x) + o.x;
          assert Crosses(T[i], v) && xt == X(T[i], v);
          if xt < p.x && (bestX.None? || xt < bestX.value) {
            best, bestX, at := Some(edge), Some(xt), i;
          }
        }
      }
      r := Ok(best);
    }

    /** `_handle_start`: puts `v` in `T` and makes it its own edge's helper. */
    method HandleStart(v: nat)
      requires Valid() && v < |mesh.verts|
      modifies this, mesh
      ensures Valid() && mesh.verts == old(mesh.verts)
      ensures T == old(T) + [v] && queueD == old(queueD)
      ensures mesh.edges == old(mesh.edges)[old(mesh.EdgeOf(v)) := old(mesh.edges[mesh.EdgeOf(v)]).(helper := Some(v))]
    {
      T := T + [v];
      mesh.SetHelper(mesh.EdgeOf(v), v);
    }

    /** `_handle_end`: when `v`'s ring predecessor is a merge vertex, queues
        the diagonal from `v` to that predecessor's helper; then removes the
        predecessor from `T`, raising ValueError when it is not there. */
    method HandleEnd(v: nat) returns (r: Result<()>)
      requires Valid() && v < |mesh.verts|
      modifies this
      ensures Valid()
      ensures queueD == old(queueD) +
        if mesh.TypeOf(mesh.Prev(v)) == Merge then [(v, mesh.HelpOf(mesh.Prev(v)))] else []
      ensures r.Err? <==> mesh.Prev(v) !in old(T)
      ensures r.Err? ==> r.error == ValueError && T == old(T)
      ensures r.Ok? ==> Remove(old(T), mesh.Prev(v)) == Some(T)
    {
      var prev := mesh.Prev(v);
      if mesh.TypeOf(prev) == Merge {
        queueD := queueD + [(v, mesh.HelpOf(prev))];
      }
      var rest := Remove(T, prev);
      if rest.None? {
        return Err(ValueError);
      }
      T := rest.value;
      r := Ok(());
    }

    /** `_handle_split`: finds the edge left of `v`, queues the diagonal
        from `v` to its helper, then puts `v` in `T` as its own edge's
        helper.  The left edge's helper is not changed (the source assigns
        a misspelt attribute).  A missing left edge raises AttributeError. */
    method HandleSplit(v: nat) returns (r: Result<()>, ghost at: int)
      requires Valid() && v < |mesh.verts|
      modifies this, mesh
      ensures Valid() && mesh.verts == old(mesh.verts)
      ensures old(InMesh(T))
      ensures r.Err? <==> !old(NoFlat(T, v)) || !old(AnyLeft(T, v))
      ensures r.Err? ==> r.error == if !old(NoFlat(T, v)) then ZeroDivisionError else AttributeError
      ensures r.Err? ==> unchanged(this) && unchanged(mesh)
      ensures r.Ok? ==> old(IsLeftEdge(T, v, at))
      ensures r.Ok? ==> queueD == old(queueD) + [(v, old(mesh.edges[mesh.EdgeOf(T[at])].helper))]
      ensures r.Ok? ==> T == old(T) + [v]
      ensures r.Ok? ==> mesh.edges == old(mesh.edges)[old(mesh.EdgeOf(v)) := old(mesh.edges[mesh.EdgeOf(v)]).(helper := Some(v))]
    {
      var found;
      found, at := LeftEdge(v);
      if found.Err? {
        return Err(found.error), at;
      }
      if found.value.None? {
        return Err(AttributeError), at;
      }
      var leftEdge := found.value.value;
      queueD := queueD + [(v, mesh.edges[leftEdge].helper)];
      T := T + [v];
      mesh.SetHelper(mesh.EdgeOf(v), v);
      r := Ok(());
    }

    /** The first steps of the merge handler, and of the regular handler
        when the interior lies to the right: when the helper of `v`'s
        predecessor is a merge vertex, queue the diagonal from `v` to it;
        then remove the predecessor from `T`.  A predecessor without a
        helper raises AttributeError, one missing from `T` ValueError. */
    method RetirePrev(v: nat) returns (r: Result<()>)
      requires Valid() && v < |mesh.verts|
      modifies this
      ensures Valid()
      ensures old(mesh.HelpOf(mesh.Prev(v))).None? ==> r == Err(AttributeError) && unchanged(this)
      ensures old(mesh.HelpOf(mesh.Prev(v))).Some? ==>
        var h := mesh.HelpOf(mesh.Prev(v)).value;
        && queueD == old(queueD) + (if mesh.TypeOf(h) == Merge then [(v, Some(h))] else [])
        && (r.Err? <==> mesh.Prev(v) !in old(T))
        && (r.Err? ==> r.error == ValueError && T == old(T))
        && (r.Ok? ==> Remove(old(T), mesh.Prev(v)) == Some(T))
    {
      var prev := mesh.Prev(v);
      var h := mesh.HelpOf(prev);
      if h.None? {
        return Err(AttributeError);
      }
      if mesh.TypeOf(h.value) == Merge {
        queueD := queueD + [(v, h)];
      }
      var rest := Remove(T, prev);
      if rest.None? {
        return Err(ValueError);
      }
      T := rest.value;
      r := Ok(());
    }

    /** The last steps of the merge handler: finds the edge left of `v`;
        when that edge's helper is a merge vertex, queues the diagonal from
        `v` to it; makes `v` the edge's helper.  The helper is never None
        here: every vertex in `T` has one. */
    method HelpLeftEdge(v: nat) returns (r: Result<()>, ghost at: int)
      requires Valid() && v < |mesh.verts|
      modifies this`queueD, mesh
      ensures Valid() && mesh.verts == old(mesh.verts) && InMesh(T)
      ensures r.Err? <==> !old(NoFlat(T, v)) || !old(AnyLeft(T, v))
      ensures r.Err? ==> r.error == (if !old(NoFlat(T, v)) then ZeroDivisionError else AttributeError)
      ensures r.Err? ==> unchanged(this) && unchanged(mesh)
      ensures r.Ok? ==> (0 <= at < |T| &&
        var u := T[at]; var e := old(mesh.EdgeOf(u));
        && old(IsLeftEdge(T, v, at)) && old(mesh.edges[e].helper).Some?
        && var lh := old(mesh.edges[e].helper).value;
        && queueD == old(queueD) + (if old(mesh.TypeOf(lh)) == Merge then [(v, Some(lh))] else [])
        && mesh.edges == old(mesh.edges)[e := old(mesh.edges)[e].(helper := Some(v))])
    {
      var found;
      found, at := LeftEdge(v);
      if found.Err? {
        return Err(found.error), at;
      }
      if found.value.None? {
        return Err(AttributeError), at;
      }
      var leftEdge := found.value.value;
      var lh := mesh.edges[leftEdge].helper;
      if mesh.TypeOf(lh.value) == Merge {
        queueD := queueD + [(v, lh)];
      }
      mesh.SetHelper(leftEdge, v);
      r := Ok(());
    }

    /** `_handle_merge`: retires `v`'s predecessor, then makes `v` the
        helper of the edge left of it, queueing diagonals to merge vertices
        on the way. */
    method HandleMerge(v: nat) returns (r: Result<()>, ghost at: int)
      requires Valid() && v < |mesh.verts|
      modifies this, mesh
      ensures Valid() && mesh.verts == old(mesh.verts)
      ensures old(mesh.HelpOf(mesh.Prev(v))).None? ==> r == Err(AttributeError)
      ensures old(mesh.HelpOf(mesh.Prev(v))).Some? && old(mesh.Prev(v)) !in old(T) ==> r == Err(ValueError)
      ensures old(mesh.HelpOf(mesh.Prev(v))).Some? && old(mesh.Prev(v)) in old(T) ==>
        && old(Remove(T, mesh.Prev(v))).Some?
        && var rest := old(Remove(T, mesh.Prev(v))).value;
        && (r.Err? <==> old(!NoFlat(rest, v) || !AnyLeft(rest, v)))
        && (r.Err? ==> r.error == (if old(!NoFlat(rest, v)) then ZeroDivisionError else AttributeError))
      ensures r.Ok? ==>
        var h := old(mesh.HelpOf(mesh.Prev(v))).value;
        && Remove(old(T), old(mesh.Prev(v))) == Some(T) && 0 <= at < |T|
        && var u := T[at]; var e := old(mesh.EdgeOf(u));
        && old(Remove(T, mesh.Prev(v)).Some? && IsLeftEdge(Remove(T, mesh.Prev(v)).value, v, at))
        && old(mesh.edges[e].helper).Some?
        && var lh := old(mesh.edges[e].helper).value;
        && queueD == old(queueD)
             + (if old(mesh.TypeOf(h)) == Merge then [(v, Some(h))] else [])
             + (if old(mesh.TypeOf(lh)) == Merge then [(v, Some(lh))] else [])
        && mesh.edges == old(mesh.edges)[e := old(mesh.edges)[e].(helper := Some(v))]
    {
      r := RetirePrev(v);
      if r.Err? {
        return r, -1;
      }
      r, at := HelpLeftEdge(v);
    }

    /** The regular handler when the interior lies to the right: retires
        `v`'s predecessor, then puts `v` in `T` as its own edge's helper. */
    method RetireAndInsert(v: nat) returns (r: Result<()>)
      requires Valid() && v < |mesh.verts|
      modifies this, mesh
      ensures Valid() && mesh.verts == old(mesh.verts)
      ensures old(mesh.HelpOf(mesh.Prev(v))).None? ==> r == Err(AttributeError)
      ensures old(mesh.HelpOf(mesh.Prev(v))).Some? ==> (r.Err? <==> old(mesh.Prev(v)) !in old(T))
      ensures old(mesh.HelpOf(mesh.Prev(v))).Some? && r.Err? ==> r.error == ValueError
      ensures r.Ok? ==>
        var h := old(mesh.HelpOf(mesh.Prev(v))).value;
        && Remove(old(T), old(mesh.Prev(v))).Some?
        && T == Remove(old(T), old(mesh.Prev(v))).value + [v]
        && queueD == old(queueD) + (if old(mesh.TypeOf(h)) == Merge then [(v, Some(h))] else [])
        && mesh.edges == old(mesh.edges)[old(mesh.EdgeOf(v)) := old(mesh.edges[mesh.EdgeOf(v)]).(helper := Some(v))]
    {
      r := RetirePrev(v);
      if r.Err? {
        return;
      }
      HandleStart(v);
    }

    /** The regular handler when the interior lies to the left: finds the
        edge left of `v`, queues the diagonal to that edge's helper when the
        edge's origin is a merge vertex, and makes `v` the edge's helper. */
    method HelpLeftOrigin(v: nat) returns (r: Result<()>, ghost at: int)
      requires Valid() && v < |mesh.verts|
      modifies this`queueD, mesh
      ensures Valid() && mesh.verts == old(mesh.verts) && InMesh(T)
      ensures r.Err? <==> !old(NoFlat(T, v)) || !old(AnyLeft(T, v))
      ensures r.Err? ==> r.error == (if !old(NoFlat(T, v)) then ZeroDivisionError else AttributeError)
      ensures r.Ok? ==> (0 <= at < |T| &&
        var u := T[at]; var e := old(mesh.EdgeOf(u));
        && old(IsLeftEdge(T, v, at))
        && queueD == old(queueD) + (if old(mesh.TypeOf(u)) == Merge then [(v, old(mesh.edges[e].helper))] else [])
        && mesh.edges == old(mesh.edges)[e := old(mesh.edges)[e].(helper := Some(v))])
    {
      var found;
      found, at := LeftEdge(v);
      if found.Err? {
        return Err(found.error), at;
      }
      if found.value.None? {
        return Err(AttributeError), at;
      }
      var leftEdge := found.value.value;
      if mesh.TypeOf(mesh.edges[leftEdge].origin) == Merge {
        queueD := queueD + [(v, mesh.edges[leftEdge].helper)];
      }
      mesh.SetHelper(leftEdge, v);
      r := Ok(());
    }

    /** `_handle_regular`: the source takes the interior to lie to the
        right of `v` when `v`'s predecessor is above it. */
    method HandleRegular(v: nat) returns (r: Result<()>, ghost at: int)
      requires Valid() && v < |mesh.verts|
      modifies this, mesh
      ensures Valid() && mesh.verts == old(mesh.verts)
      ensures old(mesh.Pos(mesh.Prev(v)).y > mesh.Pos(v).y) && r.Ok? ==>
        Remove(old(T), old(mesh.Prev(v))).Some? && T == Remove(old(T), old(mesh.Prev(v))).value + [v]
      ensures old(mesh.Pos(mesh.Prev(v)).y <= mesh.Pos(v).y) ==>
        && T == old(T)
        && (r.Err? <==> !old(NoFlat(T, v)) || !old(AnyLeft(T, v)))
        && (r.Ok? ==> old(IsLeftEdge(T, v, at)))
    {
      var prev := mesh.Pos(mesh.Prev(v));
      if prev.y > mesh.Pos(v).y {
        r := RetireAndInsert(v);
        at := -1;
      } else {
        r, at := HelpLeftOrigin(v);
      }
    }

    /** `_handle`: classifies `v` and runs the handler for its kind. */
    method Handle(v: nat) returns (r: Result<()>)
      requires Valid() && v < |mesh.verts|
      modifies this, mesh
      ensures Valid() && mesh.verts == old(mesh.verts)
      ensures old(mesh.TypeOf(v)) == Start ==> r.Ok? && T == old(T) + [v]
      ensures old(mesh.TypeOf(v)) == Split && r.Ok? ==> T == old(T) + [v]
      ensures old(mesh.TypeOf(v)) == End ==> (r.Ok? <==> old(mesh.Prev(v)) in old(T))
      ensures old(mesh.TypeOf(v)) in {End, Merge} && r.Ok? ==> Remove(old(T), old(mesh.Prev(v))) == Some(T)
    {
      var kind := mesh.TypeOf(v);
      ghost var at: int;
      match kind {
        case Start =>
          HandleStart(v);
          r := Ok(());
        case End =>
          r := HandleEnd(v);
        case Split =>
          r, at := HandleSplit(v);
        case Merge =>
          r, at := HandleMerge(v);
        case Regular =>
          r, at := HandleRegular(v);
      }
    }
  }
}
