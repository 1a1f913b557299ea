/** The doubly connected edge list of tri.py: vertices, half-edges
    (`ConnEdge`) and the `DCEL` that owns them.  Python's object references
    become indices: a vertex is its position in `verts`, a half-edge its
    position in `edges`, and `origin`, `twin`, `prev`, `next`, `helper` and
    a vertex's `e` hold such positions. */
module Dcel {
  import opened Wrappers
  import opened Geometry
  import opened Walk

  /** A polygon vertex with its outgoing half-edge `e` (unset: None). */
  datatype Vertex = Vertex(x: real, y: real, e: Option<nat>)
  {
    function Pos(): Point
    {
      Point(x, y)
    }

    /** `Vertex.__getitem__`: 0 reads x, 1 reads y, any other index raises
        IndexError. */
    function Get(idx: int): (r: Result<real>)
      ensures r.Ok? <==> idx == 0 || idx == 1
      ensures r.Ok? ==> r.value == if idx == 0 then Pos().x else Pos().y
      ensures r.Err? ==> r.error == IndexError
    {
      if idx == 0 then Ok(x) else if idx == 1 then Ok(y) else Err(IndexError)
    }
  }

  /** `_sld` indexes its arguments: on vertices, through `__getitem__`, it
      is the signed area of their positions. */
  lemma SldThroughGet(a: Vertex, b: Vertex, p: Vertex)
    ensures a.Get(0).Ok? && a.Get(1).Ok? && b.Get(0).Ok? && b.Get(1).Ok? && p.Get(0).Ok? && p.Get(1).Ok?
    ensures Sld(a.Pos(), b.Pos(), p.Pos())
         == (p.Get(0).value - b.Get(0).value) * (a.Get(1).value - b.Get(1).value)
          - (p.Get(1).value - b.Get(1).value) * (a.Get(0).value - b.Get(0).value)
  {
  }

  /** `Vertex.tuples_to_vertices`: one fresh vertex, without an edge, per
      coordinate pair, in order. */
  method TuplesToVertices(tuples: seq<(real, real)>) returns (r: seq<Vertex>)
    ensures |r| == |tuples|
    ensures forall i :: 0 <= i < |r| ==> r[i] == Vertex(tuples[i].0, tuples[i].1, None)
  {
    r := [];
    for i := 0 to |tuples|
      invariant |r| == i
      invariant forall j :: 0 <= j < i ==> r[j] == Vertex(tuples[j].0, tuples[j].1, None)
    {
      r := r + [Vertex(tuples[i].0, tuples[i].1, None)];
    }
  }

  /** A half-edge: its origin vertex, the face on its left, its twin (unset
      on the polygon's own boundary), its neighbours on the face boundary
      and the sweep's helper vertex. */
  datatype ConnEdge = ConnEdge(origin: nat, face: nat, twin: Option<nat>, prev: nat, next: nat, helper: Option<nat>)

  /** Every index a half-edge holds points into the mesh. */
  predicate InRange(c: ConnEdge, vertexCount: nat, edgeCount: nat, faces: nat)
  {
    && c.origin < vertexCount
    && c.face < faces
    && c.prev < edgeCount
    && c.next < edgeCount
    && (c.twin.Some? ==> c.twin.value < edgeCount)
    && (c.helper.Some? ==> c.helper.value < vertexCount)
  }

  ghost predicate WellIndexed(vertexCount: nat, es: seq<ConnEdge>, faces: nat)
  {
    forall i :: 0 <= i < |es| ==> InRange(es[i], vertexCount, |es|, faces)
  }

  /** `this == prev.next` and `this == next.prev` for every half-edge. */
  ghost predicate Inverse(es: seq<ConnEdge>)
  {
    forall i {:trigger InverseAt(es, i)} :: 0 <= i < |es| ==> InverseAt(es, i)
  }

  /** Half-edge `i` is the predecessor of its successor and the successor
      of its predecessor. */

  ghost predicate InverseAt(es: seq<ConnEdge>, i: nat)
    requires i < |es|
  {
    es[i].next < |es| && es[i].prev < |es| && es[es[i].next].prev == i && es[es[i].prev].next == i
  }

  /** A twin's twin is the half-edge itself. */
  ghost predicate TwinsPaired(es: seq<ConnEdge>)
  {
    forall i {:trigger TwinAt(es, i)} :: 0 <= i < |es| ==> TwinAt(es, i)
  }

  ghost predicate TwinAt(es: seq<ConnEdge>, i: nat)
    requires i < |es|
  {
    es[i].twin.Some? ==> es[i].twin.value < |es| && es[es[i].twin.value].twin == Some(i)
  }

  /** The `next` links alone. */
  ghost function Nexts(es: seq<ConnEdge>): (nx: seq<nat>)
    ensures |nx| == |es| && forall i {:trigger nx[i]} :: 0 <= i < |es| ==> nx[i] == es[i].next
  {
    seq(|es|, i requires 0 <= i < |es| => es[i].next)
  }

  /** With inverse links, `next` is a permutation of the half-edges. */
  lemma NextsPermute(es: seq<ConnEdge>)
    requires Inverse(es)
    ensures Closed(Nexts(es)) && Injective(Nexts(es))
  {
    var nx := Nexts(es);
    forall i | 0 <= i < |nx|
      ensures nx[i] < |nx|
    {
      assert InverseAt(es, i);
    }
    forall i, j | 0 <= i < |nx| && 0 <= j < |nx| && nx[i] == nx[j]
      ensures i == j
    {
      assert InverseAt(es, i) && InverseAt(es, j);
    }
  }

  /** Each vertex's `e`, when set, leaves that vertex. */
  ghost predicate Anchors(vs: seq<Vertex>, es: seq<ConnEdge>)
  {
    forall v :: 0 <= v < |vs| && vs[v].e.Some? ==> vs[v].e.value < |es| && es[vs[v].e.value].origin == v
  }

  /** The mesh invariant: indices in range, `next`/`prev` inverse, twins
      paired, vertex edges anchored, and at least the outer face. */
  ghost predicate MeshOk(vs: seq<Vertex>, es: seq<ConnEdge>, faces: nat)
  {
    && faces >= 1
    && WellIndexed(|vs|, es, faces)
    && Inverse(es)
    && TwinsPaired(es)
    && Anchors(vs, es)
  }

  /** `s` starts at `src`, `t` at `tgt`, and both lie on the same face.  A
      half-edge leaving `src` is never counted as an ender, so `src` and
      `tgt` differ. */
  ghost predicate CommonFace(es: seq<ConnEdge>, src: nat, tgt: nat, s: nat, t: nat)
  {
    && s < |es| && t < |es|
    && es[s].origin == src && es[t].origin == tgt && src != tgt
    && es[s].face == es[t].face
  }

  /** Lexicographic order on (starter, ender) pairs. */
  predicate LexLe(p: (nat, nat), q: (nat, nat))
  {
    p.0 < q.0 || (p.0 == q.0 && p.1 <= q.1)
  }

  predicate Increasing(s: seq<nat>)
  {
    forall a, b :: 0 <= a < b < |s| ==> s[a] < s[b]
  }

  /** The inner loop of `insert`'s pair search: for one starter `s`, every
      ender on `s`'s face overwrites the choice, so the last one wins; with
      none, the choice is left as it was. */
  method ScanEnders(es: seq<ConnEdge>, s: nat, enders: seq<nat>, pair0: Option<(nat, nat)>)
    returns (pair: Option<(nat, nat)>, ghost pb: int)
    requires s < |es| && forall b :: 0 <= b < |enders| ==> enders[b] < |es|
    ensures -1 <= pb < |enders|
    ensures pb == -1 ==> pair == pair0 && forall b :: 0 <= b < |enders| ==> es[s].face != es[enders[b]].face
    ensures pb >= 0 ==> pair == Some((s, enders[pb])) && es[s].face == es[enders[pb]].face
    ensures pb >= 0 ==> forall b :: pb < b < |enders| ==> es[s].face != es[enders[b]].face
  {
    pair, pb := pair0, -1;
    for b := 0 to |enders|
      invariant -1 <= pb < b
      invariant pb == -1 ==> pair == pair0 && forall y :: 0 <= y < b ==> es[s].face != es[enders[y]].face
      invariant pb >= 0 ==> pair == Some((s, enders[pb])) && es[s].face == es[enders[pb]].face
      invariant pb >= 0 ==> forall y :: pb < y < b ==> es[s].face != es[enders[y]].face
    {
      if es[s].face == es[enders[b]].face {
        pair, pb := Some((s, enders[b])), b;
      }
    }
  }

  /** The double loop of `insert` over starters and enders: every pair on a
      common face overwrites the previous choice, so the result is the
      lexicographically last such pair. */
  method SelectPair(es: seq<ConnEdge>, starters: seq<nat>, enders: seq<nat>) returns (pair: Option<(nat, nat)>)
    requires forall a :: 0 <= a < |starters| ==> starters[a] < |es|
    requires forall b :: 0 <= b < |enders| ==> enders[b] < |es|
    requires Increasing(starters) && Increasing(enders)
    ensures pair.None? <==> forall a, b :: 0 <= a < |starters| && 0 <= b < |enders| ==> es[starters[a]].face != es[enders[b]].face
    ensures pair.Some? ==> pair.value.0 in starters && pair.value.1 in enders
    ensures pair.Some? ==> es[pair.value.0].face == es[pair.value.1].face
    ensures pair.Some? ==> forall a, b :: 0 <= a < |starters| && 0 <= b < |enders| && es[starters[a]].face == es[enders[b]].face ==>
      LexLe((starters[a], enders[b]), pair.value)
  {
    pair := None;
    ghost var pa, pb := 0, 0;
    for a := 0 to |starters|
      invariant pair.None? <==> forall x, y :: 0 <= x < a && 0 <= y < |enders| ==> es[starters[x]].face != es[enders[y]].face
      invariant pair.Some? ==> pa < a && 0 <= pb < |enders| && pair.value == (starters[pa], enders[pb])
      invariant pair.Some? ==> es[starters[pa]].face == es[enders[pb]].face
      invariant pair.Some? ==> forall x, y :: 0 <= x < a && 0 <= y < |enders| && es[starters[x]].face == es[enders[y]].face ==>
        x < pa || (x == pa && y <= pb)
    {
      ghost var found: int;
      pair, found := ScanEnders(es, starters[a], enders, pair);
      if found >= 0 {
        pa, pb := a, found;
      }
    }
    if pair.Some? {
      forall a, b | 0 <= a < |starters| && 0 <= b < |enders| && es[starters[a]].face == es[enders[b]].face
        ensures LexLe((starters[a], enders[b]), pair.value)
      {
        assert a < pa || (a == pa && b <= pb);
        if a < pa {
          assert starters[a] < starters[pa];
        } else if b < pb {
          assert enders[b] < enders[pb];
        }
      }
    }
  }

  /** The first loop of `insert`: the half-edges leaving `src` (starters)
      and, of the others, those leaving `tgt` (enders), in arena order. */
  method Collect(es: seq<ConnEdge>, src: nat, tgt: nat) returns (starters: seq<nat>, enders: seq<nat>)
    ensures forall a :: 0 <= a < |starters| ==> starters[a] < |es|
    ensures forall b :: 0 <= b < |enders| ==> enders[b] < |es|
    ensures Increasing(starters) && Increasing(enders)
    ensures forall x: nat :: x in starters <==> x < |es| && es[x].origin == src
    ensures forall x: nat :: x in enders <==> x < |es| && es[x].origin == tgt && tgt != src
  {
    starters, enders := [], [];
    for i := 0 to |es|
      invariant forall a :: 0 <= a < |starters| ==> starters[a] < i
      invariant forall a :: 0 <= a < |enders| ==> enders[a] < i
      invariant Increasing(starters) && Increasing(enders)
      invariant forall x: nat :: x in starters <==> x < i && es[x].origin == src
      invariant forall x: nat :: x in enders <==> x < i && es[x].origin == tgt && tgt != src
    {
      if es[i].origin == src {
        starters := starters + [i];
      } else if es[i].origin == tgt {
        enders := enders + [i];
      }
    }
  }

  /** The successor of half-edge `x` once `insert` has spliced the diagonal
      `n` (from the starter's origin, before `t`) and its twin `n + 1` (from
      the ender's origin, before `s`) into an arena of `n` half-edges. */
  ghost function SplicedNext(es: seq<ConnEdge>, s: nat, t: nat, x: nat): nat
    requires s < |es| && t < |es| && x < |es| + 2
  {
    var n := |es|;
    if x == n then t
    else if x == n + 1 then s
    else if x == es[s].prev then n
    else if x == es[t].prev then n + 1
    else es[x].next
  }

  /** The predecessor of half-edge `x` after the same splice. */
  ghost function SplicedPrev(es: seq<ConnEdge>, s: nat, t: nat, x: nat): nat
    requires s < |es| && t < |es| && x < |es| + 2
  {
    var n := |es|;
    if x == n then es[s].prev
    else if x == n + 1 then es[t].prev
    else if x == t then n
    else if x == s then n + 1
    else es[x].prev
  }

  lemma SplicedInverseAt(es: seq<ConnEdge>, s: nat, t: nat, x: nat)
    requires Inverse(es) && s < |es| && t < |es| && s != t && x < |es| + 2
    ensures SplicedNext(es, s, t, x) < |es| + 2 && SplicedPrev(es, s, t, x) < |es| + 2
    ensures SplicedPrev(es, s, t, SplicedNext(es, s, t, x)) == x
    ensures SplicedNext(es, s, t, SplicedPrev(es, s, t, x)) == x
  {
    assert InverseAt(es, s) && InverseAt(es, t);
    var sp, tp := es[s].prev, es[t].prev;
    assert InverseAt(es, sp) && InverseAt(es, tp);
    if x < |es| {
      assert InverseAt(es, x);
      var nx, pv := es[x].next, es[x].prev;
      assert InverseAt(es, nx) && InverseAt(es, pv);
    }
  }

  /** The links `insert` leaves: `es2` is `es` with the diagonal `n` and its
      twin `n + 1` spliced in, `n` being the old edge count; origins, twins
      of old half-edges and helpers are untouched. */
  ghost predicate Spliced(es: seq<ConnEdge>, es2: seq<ConnEdge>, src: nat, tgt: nat, s: nat, t: nat)
    requires s < |es| && t < |es|
  {
    && |es2| == |es| + 2
    && es2[|es|].origin == src && es2[|es|].twin == Some(|es| + 1) && es2[|es|].helper == None
    && es2[|es| + 1].origin == tgt && es2[|es| + 1].twin == Some(|es|) && es2[|es| + 1].helper == None
    && (forall x :: 0 <= x < |es| + 2 ==>
         es2[x].next == SplicedNext(es, s, t, x) && es2[x].prev == SplicedPrev(es, s, t, x))
    && (forall x :: 0 <= x < |es| ==>
         es2[x].origin == es[x].origin && es2[x].twin == es[x].twin && es2[x].helper == es[x].helper)
  }

  /** After the splice `next` and `prev` still undo each other. */
  lemma SpliceKeepsInverse(es: seq<ConnEdge>, es2: seq<ConnEdge>, src: nat, tgt: nat, s: nat, t: nat)
    requires Inverse(es) && s < |es| && t < |es| && s != t
    requires Spliced(es, es2, src, tgt, s, t)
    ensures Inverse(es2)
  {
    forall i | 0 <= i < |es2|
      ensures es2[i].next < |es2| && es2[i].prev < |es2|
      ensures es2[es2[i].next].prev == i && es2[es2[i].prev].next == i
    {
      SplicedInverseAt(es, s, t, i);
    }
  }

  /** The walk from `e` first comes back to `e` after `k` steps. */
  ghost predicate FirstReturn(nx: seq<nat>, e: nat, k: nat)
    requires Closed(nx) && e < |nx|
  {
    k >= 1 && Iter(nx, e, k) == e && forall i :: 1 <= i < k ==> Iter(nx, e, i) != e
  }

  /** Half-edge `i` and its successor bound the same face. */
  ghost predicate FaceAgreeAt(es: seq<ConnEdge>, i: nat)
    requires i < |es|
  {
    es[i].next < |es| && es[es[i].next].face == es[i].face
  }

  /** Every face label is constant along the `next` links, as `insert`
      leaves them. */
  ghost predicate FacesAgree(es: seq<ConnEdge>)
  {
    forall i {:trigger FaceAgreeAt(es, i)} :: 0 <= i < |es| ==> FaceAgreeAt(es, i)
  }

  /** Every step of a walk reaches a half-edge visited in steps 1..k. */
  lemma {:induction false} VisitedHas(nx: seq<nat>, e: nat, k: nat, i: nat)
    requires Closed(nx) && e < |nx| && 1 <= i <= k
    ensures Iter(nx, e, i) in Visited(nx, e, k)
  {
    if i < k {
      VisitedHas(nx, e, k - 1, i);
    }
  }

  /** The successor of a half-edge on the cycle through `e` is on it. */
  lemma OnCycleNext(nx: seq<nat>, e: nat, k: nat, x: nat)
    requires Closed(nx) && e < |nx| && x < |nx| && FirstReturn(nx, e, k)
    requires x == e || x in Visited(nx, e, k - 1)
    ensures nx[x] == e || nx[x] in Visited(nx, e, k - 1)
  {
    var i: nat := 0;
    if x != e {
      VisitedFrom(nx, e, k - 1, x);
      i :| 1 <= i <= k - 1 && Iter(nx, e, i) == x;
    }
    assert Iter(nx, e, i + 1) == nx[x];
    if i + 1 < k {
      VisitedHas(nx, e, k - 1, i + 1);
    }
  }

  /** The predecessor of a half-edge on the cycle through `e` is on it,
      since no other half-edge shares its successor. */
  lemma OnCyclePrev(nx: seq<nat>, e: nat, k: nat, x: nat)
    requires Closed(nx) && Injective(nx) && e < |nx| && x < |nx| && FirstReturn(nx, e, k)
    requires nx[x] == e || nx[x] in Visited(nx, e, k - 1)
    ensures x == e || x in Visited(nx, e, k - 1)
  {
    var i: nat := k;
    if nx[x] != e {
      VisitedFrom(nx, e, k - 1, nx[x]);
      i :| 1 <= i <= k - 1 && Iter(nx, e, i) == nx[x];
    }
    var y := Iter(nx, e, i - 1);
    assert nx[y] == nx[x];
    assert y == x;
    if i > 1 {
      VisitedHas(nx, e, k - 1, i - 1);
    }
  }

  /** The face labels `insert` leaves: the walk from the new twin `n + 1`
      returns to it after `k` steps; the twin and every half-edge strictly
      inside that walk carry the new face `nf`; the new diagonal `n` carries
      the starter's old face; all others keep theirs. */
  ghost predicate Relabelled(es: seq<ConnEdge>, es2: seq<ConnEdge>, s: nat, nf: nat, k: nat)
    requires s < |es| && |es2| == |es| + 2 && Closed(Nexts(es2))
  {
    && FirstReturn(Nexts(es2), |es| + 1, k)
    && forall x :: 0 <= x < |es| + 2 ==>
      es2[x].face == (if x == |es| + 1 || x in Visited(Nexts(es2), |es| + 1, k - 1) then nf
                      else if x == |es| then es[s].face
                      else es[x].face)
  }

  /** `es` with half-edge `i`'s successor set to `v`. */
  ghost function SetNext(es: seq<ConnEdge>, i: nat, v: nat): (r: seq<ConnEdge>)
    requires i < |es|
    ensures |r| == |es| && forall x :: 0 <= x < |es| ==> r[x] == if x == i then es[x].(next := v) else es[x]
  {
    es[i := es[i].(next := v)]
  }

  /** `es` with half-edge `i`'s predecessor set to `v`. */
  ghost function SetPrev(es: seq<ConnEdge>, i: nat, v: nat): (r: seq<ConnEdge>)
    requires i < |es|
    ensures |r| == |es| && forall x :: 0 <= x < |es| ==> r[x] == if x == i then es[x].(prev := v) else es[x]
  {
    es[i := es[i].(prev := v)]
  }

  /** The arena after `insert` appends the diagonal and its twin and runs
      its four relinking statements, in their order. */
  ghost function Relinked(es: seq<ConnEdge>, src: nat, tgt: nat, face: nat, nf: nat, s: nat, t: nat): (r: seq<ConnEdge>)
    requires s < |es| && t < |es| && es[s].prev < |es| && es[t].prev < |es|
    ensures |r| == |es| + 2
  {
    var n := |es|;
    var e1 := es + [ConnEdge(src, face, Some(n + 1), es[s].prev, t, None), ConnEdge(tgt, nf, Some(n), es[t].prev, s, None)];
    SetPrev(SetNext(SetPrev(SetNext(e1, es[s].prev, n), t, n), es[t].prev, n + 1), s, n + 1)
  }

  lemma RelinkedAt(es: seq<ConnEdge>, src: nat, tgt: nat, face: nat, nf: nat, s: nat, t: nat, x: nat)
    requires s < |es| && t < |es| && es[s].prev < |es| && es[t].prev < |es| && x < |es| + 2
    requires es[es[s].prev].next == s && es[es[t].prev].next == t && s != t
    ensures Relinked(es, src, tgt, face, nf, s, t)[x] ==
      (if x < |es| then es[x] else if x == |es| then ConnEdge(src, face, Some(|es| + 1), 0, 0, None)
       else ConnEdge(tgt, nf, Some(|es|), 0, 0, None)).(next := SplicedNext(es, s, t, x), prev := SplicedPrev(es, s, t, x))
  {
  }

  /** The relinking produces the splice; the appended pair carries the
      starter's face and the new face, old half-edges keep theirs. */
  lemma SpliceLinks(es: seq<ConnEdge>, src: nat, tgt: nat, face: nat, nf: nat, s: nat, t: nat)
    requires Inverse(es) && CommonFace(es, src, tgt, s, t) && InverseAt(es, s) && InverseAt(es, t)
    ensures Spliced(es, Relinked(es, src, tgt, face, nf, s, t), src, tgt, s, t)
    ensures Relinked(es, src, tgt, face, nf, s, t)[|es|].face == face
    ensures Relinked(es, src, tgt, face, nf, s, t)[|es| + 1].face == nf
    ensures forall x :: 0 <= x < |es| ==> Relinked(es, src, tgt, face, nf, s, t)[x].face == es[x].face
  {
    var es2 := Relinked(es, src, tgt, face, nf, s, t);
    forall x | 0 <= x < |es| + 2
      ensures es2[x].next == SplicedNext(es, s, t, x) && es2[x].prev == SplicedPrev(es, s, t, x)
      ensures x < |es| ==> es2[x] == es[x].(next := es2[x].next, prev := es2[x].prev)
    {
      RelinkedAt(es, src, tgt, face, nf, s, t, x);
    }
    RelinkedAt(es, src, tgt, face, nf, s, t, |es|);
    RelinkedAt(es, src, tgt, face, nf, s, t, |es| + 1);
  }

  /** The relabelled arena differs from the spliced one in faces only. */
  ghost predicate FacesOnly(linked: seq<ConnEdge>, es2: seq<ConnEdge>, nf: nat)
  {
    |es2| == |linked| && forall x :: 0 <= x < |es2| ==> es2[x] == linked[x] || es2[x] == linked[x].(face := nf)
  }

  lemma SpliceKeepsValidAt(vs: seq<Vertex>, es: seq<ConnEdge>, linked: seq<ConnEdge>, es2: seq<ConnEdge>,
                           faces: nat, src: nat, tgt: nat, s: nat, t: nat, i: nat)
    requires MeshOk(vs, es, faces) && CommonFace(es, src, tgt, s, t)
    requires Spliced(es, linked, src, tgt, s, t)
    requires linked[|es|].face == es[s].face && linked[|es| + 1].face == faces
    requires forall x :: 0 <= x < |es| ==> linked[x].face == es[x].face
    requires FacesOnly(linked, es2, faces) && i < |es2|
    ensures InRange(es2[i], |vs|, |es2|, faces + 1)
    ensures es2[i].next == linked[i].next && es2[i].prev == linked[i].prev
    ensures es2[i].origin == linked[i].origin && es2[i].twin == linked[i].twin && es2[i].helper == linked[i].helper
    ensures TwinAt(es2, i)
  {
    SplicedInverseAt(es, s, t, i);
    assert es2[i] == linked[i] || es2[i] == linked[i].(face := faces);
    if i < |es| {
      assert InRange(es[i], |vs|, |es|, faces) && TwinAt(es, i);
      if es[i].twin.Some? {
        var w := es[i].twin.value;
        assert es2[w] == linked[w] || es2[w] == linked[w].(face := faces);
      }
    } else {
      assert es[s].origin < |vs| && es[t].origin < |vs|;
      var w := if i == |es| then |es| + 1 else |es|;
      assert es2[w] == linked[w] || es2[w] == linked[w].(face := faces);
    }
  }

  /** The splice followed by the relabelling keeps the mesh invariant, with
      one more face. */
  lemma SpliceKeepsValid(vs: seq<Vertex>, es: seq<ConnEdge>, linked: seq<ConnEdge>, es2: seq<ConnEdge>,
                         faces: nat, src: nat, tgt: nat, s: nat, t: nat)
    requires MeshOk(vs, es, faces) && CommonFace(es, src, tgt, s, t)
    requires Spliced(es, linked, src, tgt, s, t)
    requires linked[|es|].face == es[s].face && linked[|es| + 1].face == faces
    requires forall x :: 0 <= x < |es| ==> linked[x].face == es[x].face
    requires FacesOnly(linked, es2, faces)
    ensures MeshOk(vs, es2, faces + 1) && Spliced(es, es2, src, tgt, s, t)
  {
    forall i | 0 <= i < |es2|
      ensures InRange(es2[i], |vs|, |es2|, faces + 1)
      ensures es2[i].next == linked[i].next && es2[i].prev == linked[i].prev
      ensures es2[i].origin == linked[i].origin && es2[i].twin == linked[i].twin && es2[i].helper == linked[i].helper
      ensures TwinAt(es2, i)
    {
      SpliceKeepsValidAt(vs, es, linked, es2, faces, src, tgt, s, t, i);
    }
    SpliceKeepsInverse(es, es2, src, tgt, s, t);
    forall v | 0 <= v < |vs| && vs[v].e.Some?
      ensures vs[v].e.value < |es2| && es2[vs[v].e.value].origin == v
    {
      assert vs[v].e.value < |es| && es[vs[v].e.value].origin == v;
    }
  }

  /** Moving the cycle behind the twin onto `nf` leaves the labels that
      `Relabelled` describes, and changes faces only. */
  lemma MoveRelabels(es: seq<ConnEdge>, linked: seq<ConnEdge>, es2: seq<ConnEdge>, s: nat, nf: nat, k: nat)
    requires s < |es| && |linked| == |es| + 2 && |es2| == |linked|
    requires Closed(Nexts(linked)) && Nexts(es2) == Nexts(linked)
    requires FirstReturn(Nexts(es2), |es| + 1, k)
    requires forall x :: 0 <= x < |es2| ==>
      es2[x] == linked[x].(face := if x in Visited(Nexts(es2), |es| + 1, k - 1) then nf else linked[x].face)
    requires linked[|es|].face == es[s].face && linked[|es| + 1].face == nf
    requires forall x :: 0 <= x < |es| ==> linked[x].face == es[x].face
    ensures Closed(Nexts(es2)) && Relabelled(es, es2, s, nf, k) && FacesOnly(linked, es2, nf)
  {
  }

  /** `es2` is `orig` with the half-edges visited in the first `j` steps of
      the walk from `right` moved onto face `nf`. */
  ghost predicate MovedUpTo(orig: seq<ConnEdge>, es2: seq<ConnEdge>, nx: seq<nat>, right: nat, nf: nat, j: nat)
    requires Closed(nx) && right < |nx|
  {
    && |es2| == |orig| == |nx|
    && forall x :: 0 <= x < |es2| ==>
      es2[x] == orig[x].(face := if x in Visited(nx, right, j) then nf else orig[x].face)
  }

  /** One step of the relabelling walk. */
  lemma MoveStep(orig: seq<ConnEdge>, es: seq<ConnEdge>, nx: seq<nat>, right: nat, nf: nat, k: nat)
    requires Closed(nx) && right < |nx| && k >= 1
    requires MovedUpTo(orig, es, nx, right, nf, k - 1)
    requires forall i :: 0 <= i < |orig| ==> nx[i] == orig[i].next
    ensures Iter(nx, right, k) < |es|
    ensures MovedUpTo(orig, es[Iter(nx, right, k) := es[Iter(nx, right, k)].(face := nf)], nx, right, nf, k)
    ensures es[Iter(nx, right, k)].next == nx[Iter(nx, right, k)] == Iter(nx, right, k + 1)
  {
    var e := Iter(nx, right, k);
    var es2 := es[e := es[e].(face := nf)];
    assert Visited(nx, right, k) == Visited(nx, right, k - 1) + {e};
    forall x | 0 <= x < |es2|
      ensures es2[x] == orig[x].(face := if x in Visited(nx, right, k) then nf else orig[x].face)
    {
      if x != e {
        assert es2[x] == es[x];
      }
    }
  }

  /** `es2` is `es` with the half-edges strictly inside the walk from
      `right` back to itself, `k` steps long, moved onto face `nf`. */
  ghost predicate MovedCycle(es: seq<ConnEdge>, es2: seq<ConnEdge>, right: nat, nf: nat, k: nat)
  {
    && Closed(Nexts(es)) && right < |es| && |es2| == |es|
    && FirstReturn(Nexts(es), right, k)
    && MovedUpTo(es, es2, Nexts(es), right, nf, k - 1)
  }

  /** The arena `insert` has after relinking and before relabelling: the
      splice, with the new diagonal on `face`, its twin on `nf`, and every
      old half-edge on its old face. */
  ghost predicate LinkedAs(es: seq<ConnEdge>, linked: seq<ConnEdge>, src: nat, tgt: nat, s: nat, t: nat, face: nat, nf: nat)
    requires s < |es| && t < |es|
  {
    && Spliced(es, linked, src, tgt, s, t)
    && linked[|es|].face == face && linked[|es| + 1].face == nf
    && forall x :: 0 <= x < |es| ==> linked[x].face == es[x].face
  }

  /** After the splice the `next` links still form a permutation. */
  lemma SplicePermutes(es: seq<ConnEdge>, linked: seq<ConnEdge>, src: nat, tgt: nat, s: nat, t: nat)
    requires Inverse(es) && CommonFace(es, src, tgt, s, t) && Spliced(es, linked, src, tgt, s, t)
    ensures Closed(Nexts(linked)) && Injective(Nexts(linked))
  {
    SpliceKeepsInverse(es, linked, src, tgt, s, t);
    NextsPermute(linked);
  }

  /** The whole of a successful `insert`: relinking, then relabelling the
      cycle behind the new twin, keeps the mesh invariant and leaves the
      splice and the labels `Relabelled` describes. */
  lemma InsertCorrect(vs: seq<Vertex>, es: seq<ConnEdge>, linked: seq<ConnEdge>, es2: seq<ConnEdge>,
                      faces: nat, src: nat, tgt: nat, s: nat, t: nat, k: nat)
    requires MeshOk(vs, es, faces) && CommonFace(es, src, tgt, s, t)
    requires LinkedAs(es, linked, src, tgt, s, t, es[s].face, faces)
    requires MovedCycle(linked, es2, |es| + 1, faces, k)
    ensures MeshOk(vs, es2, faces + 1) && Diagonal(es, es2, src, tgt, s, t, faces, k)
  {
    assert Nexts(es2) == Nexts(linked);
    MoveRelabels(es, linked, es2, s, faces, k);
    SpliceKeepsValid(vs, es, linked, es2, faces, src, tgt, s, t);
  }

  /** What a successful `insert` leaves: `es2` is `es` with the diagonal
      and its twin spliced in (`Spliced`), the walk from the twin closes
      after `k` steps, and exactly the half-edges on that walk are on the
      new face `nf` (`Relabelled`). */
  ghost predicate Diagonal(es: seq<ConnEdge>, es2: seq<ConnEdge>, src: nat, tgt: nat, s: nat, t: nat, nf: nat, k: nat)
    requires s < |es| && t < |es|
  {
    && Spliced(es, es2, src, tgt, s, t)
    && Closed(Nexts(es2))
    && Relabelled(es, es2, s, nf, k)
  }

  /** `insert` keeps face labels constant along `next`: the relabelled
      cycle is closed under `next` and carries the new face throughout;
      off it, the starter's predecessor now leads to the new half-edge,
      which carries the starter's face and leads to the ender, on the same
      face; every other link is the old one. */
  lemma DiagonalKeepsFacesAgree(es: seq<ConnEdge>, es2: seq<ConnEdge>, src: nat, tgt: nat, s: nat, t: nat, nf: nat, k: nat)
    requires Inverse(es) && FacesAgree(es) && CommonFace(es, src, tgt, s, t)
    requires Diagonal(es, es2, src, tgt, s, t, nf, k) && Inverse(es2)
    ensures FacesAgree(es2)
  {
    var n := |es|;
    var nx := Nexts(es2);
    NextsPermute(es2);
    assert InverseAt(es, s);
    forall x | 0 <= x < n + 2
      ensures FaceAgreeAt(es2, x)
    {
      if x == n + 1 || x in Visited(nx, n + 1, k - 1) {
        OnCycleNext(nx, n + 1, k, x);
      } else if nx[x] == n + 1 || nx[x] in Visited(nx, n + 1, k - 1) {
        OnCyclePrev(nx, n + 1, k, x);
      }
      assert nx[x] == SplicedNext(es, s, t, x);
      if !(x == n + 1 || x in Visited(nx, n + 1, k - 1)) {
        if x == n {
          assert nx[x] == t;
        } else if x == es[s].prev {
          assert FaceAgreeAt(es, x);
        } else {
          assert FaceAgreeAt(es, x) && InverseAt(es, x);
        }
      }
    }
  }

  /** The pair `insert` settles on: its double loop keeps overwriting, so
      the last common-face pair in (starter, ender) order wins. */
  ghost predicate LastCommonFace(es: seq<ConnEdge>, src: nat, tgt: nat, s: nat, t: nat)
  {
    && CommonFace(es, src, tgt, s, t)
    && forall s': nat, t': nat :: CommonFace(es, src, tgt, s', t') ==> LexLe((s', t'), (s, t))
  }

  /** Position `i` of a ring of `n` has successor `(i+1) % n` and
      predecessor `(i-1) % n`, and these undo each other. */
  lemma RingSteps(n: nat, i: nat)
    requires i < n
    ensures ((i + 1) % n - 1) % n == i
    ensures ((i - 1) % n + 1) % n == i
  {
    if i == n - 1 {
      ModSelf(n);
      ModMinusOne(n);
      ModSmall(i, n);
    } else {
      ModSmall(i + 1, n);
      ModSmall(i, n);
    }
    if i == 0 {
      ModMinusOne(n);
      ModSelf(n);
    } else {
      ModSmall(i - 1, n);
      ModSmall(i, n);
    }
  }

  lemma ModSmall(a: int, n: int)
    requires 0 <= a < n
    ensures a % n == a
  {
  }

  lemma ModSelf(n: int)
    requires n > 0
    ensures n % n == 0
  {
  }

  lemma ModMinusOne(n: int)
    requires n > 0
    ensures (-1) % n == n - 1
  {
  }

  /** Setting one half-edge's helper to a vertex of the mesh changes no
      link, so the mesh stays well formed. */
  lemma HelperKeepsMeshOk(vs: seq<Vertex>, es: seq<ConnEdge>, faces: nat, e: nat, h: nat)
    requires MeshOk(vs, es, faces) && e < |es| && h < |vs|
    ensures MeshOk(vs, es[e := es[e].(helper := Some(h))], faces)
  {
    var es2 := es[e := es[e].(helper := Some(h))];
    forall i | 0 <= i < |es2|
      ensures InverseAt(es2, i) && TwinAt(es2, i)
    {
      assert InverseAt(es, i) && TwinAt(es, i);
    }
  }

  /** The DCEL: its vertices, its half-edges and its face counter. */
  class Mesh {
    var verts: seq<Vertex>
    var edges: seq<ConnEdge>
    var faces: nat

    ghost predicate Valid()
      reads this
    {
      MeshOk(verts, edges, faces)
    }

    /** Every vertex has its outgoing half-edge set, as the constructor
        leaves it when asked to update the vertices. */
    ghost predicate Anchored()
      reads this
    {
      forall v :: 0 <= v < |verts| ==> verts[v].e.Some?
    }

    /** `DCEL.__init__`: one half-edge per vertex, linked into a single ring
        on face 0; with `updateVertices` every vertex gets its outgoing
        half-edge.  A vertex handed in unlinked has no edge yet (an index
        into another mesh would mean nothing here). */
    constructor (vertices: seq<Vertex>, updateVertices: bool)
      requires !updateVertices ==> forall v :: 0 <= v < |vertices| ==> vertices[v].e.None?
      ensures Valid()
      ensures faces == 1 && |edges| == |vertices| && |verts| == |vertices|
      ensures forall i :: 0 <= i < |edges| ==>
        edges[i] == ConnEdge(i, 0, None, (i - 1) % |edges|, (i + 1) % |edges|, None)
      ensures forall v :: 0 <= v < |verts| ==>
        verts[v] == vertices[v].(e := if updateVertices then Some(v) else vertices[v].e)
      ensures updateVertices ==> Anchored()
      ensures FacesAgree(edges)
    {
      var es: seq<ConnEdge> := [];
      for i := 0 to |vertices|
        invariant |es| == i
        invariant forall j :: 0 <= j < i ==> es[j] == ConnEdge(j, 0, None, 0, 0, None)
      {
        es := es + [ConnEdge(i, 0, None, 0, 0, None)];
      }
      var n := |es|;
      for i := 0 to n
        invariant |es| == n
        invariant forall j :: 0 <= j < i ==> es[j] == ConnEdge(j, 0, None, (j - 1) % n, (j + 1) % n, None)
        invariant forall j :: i <= j < n ==> es[j] == ConnEdge(j, 0, None, 0, 0, None)
      {
        es := es[i := es[i].(next := (i + 1) % n)];
        es := es[i := es[i].(prev := (i - 1) % n)];
      }
      var vs := vertices;
      if updateVertices {
        for i := 0 to n
          invariant |vs| == n
          invariant forall v :: 0 <= v < n ==> vs[v] == vertices[v].(e := if v < i then Some(v) else vertices[v].e)
        {
          vs := vs[es[i].origin := vs[es[i].origin].(e := Some(i))];
        }
      }
      faces := 1;
      edges := es;
      verts := vs;
      new;
      forall i | 0 <= i < n
        ensures edges[edges[i].next].prev == i && edges[edges[i].prev].next == i
      {
        RingSteps(n, i);
      }
    }

    /** `Vertex.prev()`: the origin of the half-edge before the vertex's
        own; None (the logged AttributeError) when the vertex has no edge. */
    function PrevOf(v: nat): (r: Option<nat>)
      reads this
      requires Valid() && v < |verts|
      ensures r.Some? <==> verts[v].e.Some?
      ensures r.Some? ==> (r.value < |verts|
        && edges[edges[verts[v].e.value].prev].origin == r.value
        && edges[edges[verts[v].e.value].prev].next == verts[v].e.value)
    {
      match verts[v].e
      case None => None
      case Some(e) =>
        assert InverseAt(edges, e);
        Some(edges[edges[e].prev].origin)
    }

    /** `Vertex.next()`: the origin of the half-edge after the vertex's own. */
    function NextOf(v: nat): (r: Option<nat>)
      reads this
      requires Valid() && v < |verts|
      ensures r.Some? <==> verts[v].e.Some?
      ensures r.Some? ==> (r.value < |verts|
        && edges[edges[verts[v].e.value].next].origin == r.value
        && edges[edges[verts[v].e.value].next].prev == verts[v].e.value)
    {
      match verts[v].e
      case None => None
      case Some(e) =>
        assert InverseAt(edges, e);
        Some(edges[edges[e].next].origin)
    }

    /** `Vertex.help()`: the helper of the vertex's own half-edge; None both
        when it has none and when the vertex has no edge. */
    function HelpOf(v: nat): (r: Option<nat>)
      reads this
      requires Valid() && v < |verts|
      ensures r.Some? <==> verts[v].e.Some? && edges[verts[v].e.value].helper.Some?
      ensures r.Some? ==> r.value < |verts| && edges[verts[v].e.value].helper == r
    {
      match verts[v].e
      case None => None
      case Some(e) => edges[e].helper
    }

    /** The position of vertex `v`. */
    function Pos(v: nat): Point
      reads this
      requires v < |verts|
    {
      verts[v].Pos()
    }

    /** The outgoing half-edge of a vertex of an anchored mesh. */
    function EdgeOf(v: nat): (e: nat)
      reads this
      requires Valid() && Anchored() && v < |verts|
      ensures e < |edges| && edges[e].origin == v
    {
      verts[v].e.value
    }

    /** `Vertex.prev()` on an anchored mesh, where it never fails. */
    function Prev(v: nat): (p: nat)
      reads this
      requires Valid() && Anchored() && v < |verts|
      ensures PrevOf(v) == Some(p) && p < |verts|
    {
      PrevOf(v).value
    }

    /** `Vertex.next()` on an anchored mesh, where it never fails. */
    function Next(v: nat): (n: nat)
      reads this
      requires Valid() && Anchored() && v < |verts|
      ensures NextOf(v) == Some(n) && n < |verts|
    {
      NextOf(v).value
    }

    /** `_vertex_type` of a vertex of an anchored mesh, from the positions
        of its ring neighbours. */
    function TypeOf(v: nat): (k: Kind)
      reads this
      requires Valid() && Anchored() && v < |verts|
    {
      VertexType(Pos(v), Pos(Prev(v)), Pos(Next(v)))
    }

    /** `edge.helper = vertex`: only that half-edge's helper changes. */
    method SetHelper(e: nat, h: nat)
      requires Valid() && e < |edges| && h < |verts|
      modifies this`edges
      ensures Valid()
      ensures edges == old(edges)[e := old(edges)[e].(helper := Some(h))]
    {
      HelperKeepsMeshOk(verts, edges, faces, e, h);
      edges := edges[e := edges[e].(helper := Some(h))];
    }

    /** On the freshly built ring, a vertex's neighbours are the ring's. */
    lemma RingNeighbours(v: nat)
      requires Valid() && Anchored() && |edges| == |verts| && v < |verts|
      requires forall i :: 0 <= i < |edges| ==>
        edges[i] == ConnEdge(i, 0, None, (i - 1) % |edges|, (i + 1) % |edges|, None)
      ensures PrevOf(v) == Some((v - 1) % |verts|) && NextOf(v) == Some((v + 1) % |verts|)
    {
      var e := verts[v].e.value;
      assert edges[e].origin == e;
      assert e == v;
      assert edges[edges[e].prev].origin == (v - 1) % |verts|;
      assert edges[edges[e].next].origin == (v + 1) % |verts|;
    }

    /** `DCEL.new_face`: hands out the next face identifier. */
    method NewFace() returns (f: nat)
      modifies this`faces
      ensures f == old(faces) && faces == old(faces) + 1
    {
      faces := faces + 1;
      f := faces - 1;
    }

    /** The search at the head of `insert`: collect the half-edges leaving
        `src` (starters) and, of the others, those leaving `tgt` (enders),
        then keep the last starter/ender pair on a common face. */
    method FindPair(src: nat, tgt: nat) returns (pair: Option<(nat, nat)>)
      ensures pair.None? <==> forall s: nat, t: nat :: !CommonFace(edges, src, tgt, s, t)
      ensures pair.Some? ==> LastCommonFace(edges, src, tgt, pair.value.0, pair.value.1)
    {
      var starters, enders := Collect(edges, src, tgt);
      pair := SelectPair(edges, starters, enders);
      if pair.None? {
        forall s, t | s in starters && t in enders
          ensures edges[s].face != edges[t].face
        {
          var a :| 0 <= a < |starters| && starters[a] == s;
          var b :| 0 <= b < |enders| && enders[b] == t;
        }
      } else {
        assert CommonFace(edges, src, tgt, pair.value.0, pair.value.1);
        forall s: nat, t: nat | CommonFace(edges, src, tgt, s, t)
          ensures LexLe((s, t), pair.value)
        {
          var a :| 0 <= a < |starters| && starters[a] == s;
          var b :| 0 <= b < |enders| && enders[b] == t;
        }
      }
    }

    /** The loop at the end of `insert`: walks `next` from the half-edge
        after `right` back to `right`, putting each half-edge on its way
        onto face `nf`. */
    method MoveCycleToFace(right: nat, nf: nat, ghost nx: seq<nat>) returns (ghost k: nat)
      requires nx == Nexts(edges) && Closed(nx) && Injective(nx) && right < |edges|
      modifies this`edges
      ensures MovedCycle(old(edges), edges, right, nf, k)
    {
      ghost var orig := edges;
      var e := edges[right].next;
      k := 1;
      while e != right
        invariant 1 <= k && e == Iter(nx, right, k)
        invariant forall i :: 1 <= i < k ==> Iter(nx, right, i) != right
        invariant MovedUpTo(orig, edges, nx, right, nf, k - 1)
        decreases |nx| - k
      {
        WalkBound(nx, right, k);
        MoveStep(orig, edges, nx, right, nf, k);
        edges := edges[e := edges[e].(face := nf)];
        e := edges[e].next;
        k := k + 1;
      }
    }

    /** The middle of `insert`: appends the diagonal (on the starter's face
        `face`) and its twin (on the new face `nf`), then relinks the
        starter's predecessor, the ender, the ender's predecessor and the
        starter, in that order. */
    method Link(src: nat, tgt: nat, s: nat, t: nat, face: nat, nf: nat)
      requires Inverse(edges) && CommonFace(edges, src, tgt, s, t)
      modifies this`edges
      ensures LinkedAs(old(edges), edges, src, tgt, s, t, face, nf)
    {
      ghost var es := edges;
      assert InverseAt(edges, s) && InverseAt(edges, t);
      var left, right := |edges|, |edges| + 1;
      var leftPrev, rightPrev := edges[s].prev, edges[t].prev;
      edges := edges + [ConnEdge(src, face, Some(right), leftPrev, t, None),
                        ConnEdge(tgt, nf, Some(left), rightPrev, s, None)];
      edges := edges[leftPrev := edges[leftPrev].(next := left)];
      edges := edges[t := edges[t].(prev := left)];
      edges := edges[rightPrev := edges[rightPrev].(next := right)];
      edges := edges[s := edges[s].(prev := right)];
      assert edges == Relinked(es, src, tgt, face, nf, s, t);
      SpliceLinks(es, src, tgt, face, nf, s, t);
    }

    /** The part of `insert` after the pair search: appends the diagonal
        from `src` (before `t`) and its twin from `tgt` (before `s`),
        relinks the four neighbours and moves the cycle behind the twin
        onto a fresh face. */
    method AddDiagonal(src: nat, tgt: nat, s: nat, t: nat) returns (ghost k: nat)
      requires Valid() && CommonFace(edges, src, tgt, s, t)
      modifies this
      ensures Valid() && verts == old(verts) && faces == old(faces) + 1
      ensures Diagonal(old(edges), edges, src, tgt, s, t, old(faces), k)
    {
      ghost var es, vs, f0 := edges, verts, faces;
      var face := edges[s].face;
      var right := |edges| + 1;
      var newFace := NewFace();
      Link(src, tgt, s, t, face, newFace);
      ghost var linked := edges;
      SplicePermutes(es, linked, src, tgt, s, t);
      k := MoveCycleToFace(right, newFace, Nexts(linked));
      InsertCorrect(vs, es, linked, edges, f0, src, tgt, s, t, k);
    }

    /** `DCEL.insert`: adds the diagonal from `src` to `tgt` as a twin pair
        of half-edges on the last common face of a starter and an ender,
        relinks the four neighbours, and moves the cycle behind the new
        twin onto a fresh face.  Raises ValueError when no starter and
        ender share a face. */
    method Insert(src: nat, tgt: nat) returns (r: Result<()>, ghost s: nat, ghost t: nat, ghost k: nat)
      requires Valid()
      modifies this
      ensures Valid() && verts == old(verts)
      ensures r.Err? ==> r.error == ValueError && edges == old(edges) && faces == old(faces)
      ensures r.Err? <==> forall s': nat, t': nat :: !CommonFace(old(edges), src, tgt, s', t')
      ensures r.Ok? ==> LastCommonFace(old(edges), src, tgt, s, t) && faces == old(faces) + 1
      ensures r.Ok? ==> Diagonal(old(edges), edges, src, tgt, s, t, old(faces), k)
      ensures FacesAgree(old(edges)) ==> FacesAgree(edges)
    {
      ghost var es := edges;
      var pair := FindPair(src, tgt);
      if pair.None? {
        r, s, t, k := Err(ValueError), 0, 0, 0;
        return;
      }
      s, t := pair.value.0, pair.value.1;
      k := AddDiagonal(src, tgt, pair.value.0, pair.value.1);
      if FacesAgree(es) {
        DiagonalKeepsFacesAgree(es, edges, src, tgt, s, t, old(faces), k);
      }
      r := Ok(());
    }
  }
}
