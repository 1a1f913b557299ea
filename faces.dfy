/** `DCEL.gen_face_data`: the walk over the faces of the mesh that records
    each face's vertex cycle and its neighbouring faces, and the greedy
    four-colouring of those faces. */
module Faces {
  import opened Wrappers
  import opened Walk
  import opened Dcel

  /** A Python dict from faces to lists of faces; `order` holds its keys in
      insertion order, the order in which `keys()` yields them. */
  datatype Network = Network(order: seq<nat>, adj: map<nat, seq<nat>>)

  /** What `gen_face_data` returns: each entry is present when asked for. */
  datatype FaceData = FaceData(network: Option<Network>, polys: Option<map<nat, seq<nat>>>, colours: Option<map<nat, nat>>)

  ghost predicate Distinct(s: seq<nat>)
  {
    forall i, j :: 0 <= i < j < |s| ==> s[i] != s[j]
  }

  /** The key order lists every key once, and only keys. */
  ghost predicate Keyed(net: Network)
  {
    Distinct(net.order) && forall f :: f in net.adj <==> f in net.order
  }

  /** `d[f] = v`: a new key goes to the end of the order, an existing key
      keeps its place. */
  function SetKey(net: Network, f: nat, v: seq<nat>): (r: Network)
    ensures Keyed(net) ==> Keyed(r)
    ensures r.adj == net.adj[f := v]
    ensures f in net.adj ==> r.order == net.order
    ensures f !in net.adj ==> r.order == net.order + [f]
  {
    Network(if f in net.adj then net.order else net.order + [f], net.adj[f := v])
  }

  // ---------------------------------------------------------------------
  // The face walk
  // ---------------------------------------------------------------------

  /** Every twin link points into the arena. */
  ghost predicate TwinsInRange(es: seq<ConnEdge>)
  {
    forall i :: 0 <= i < |es| && es[i].twin.Some? ==> es[i].twin.value < |es|
  }

  lemma ValidTwinsInRange(vs: seq<Vertex>, es: seq<ConnEdge>, faces: nat)
    requires MeshOk(vs, es, faces)
    ensures TwinsInRange(es)
  {
    forall i | 0 <= i < |es| && es[i].twin.Some?
      ensures es[i].twin.value < |es|
    {
      assert InRange(es[i], |vs|, |es|, faces);
    }
  }

  /** When the labels agree along `next`, a walk never leaves its face. */
  lemma {:induction false} WalkStaysOnFace(es: seq<ConnEdge>, e0: nat, i: nat)
    requires FacesAgree(es) && Closed(Nexts(es)) && e0 < |es|
    ensures es[Iter(Nexts(es), e0, i)].face == es[e0].face
  {
    if i > 0 {
      WalkStaysOnFace(es, e0, i - 1);
      assert FaceAgreeAt(es, Iter(Nexts(es), e0, i - 1));
    }
  }

  /** The origins of the first `k` half-edges on the walk from `e0`. */
  ghost function Origins(es: seq<ConnEdge>, e0: nat, k: nat): (r: seq<nat>)
    requires Closed(Nexts(es)) && e0 < |es|
    ensures |r| == k
  {
    if k == 0 then [] else Origins(es, e0, k - 1) + [es[Iter(Nexts(es), e0, k - 1)].origin]
  }

  /** The face across half-edge `e`, if it has a twin. */
  ghost function TwinFace(es: seq<ConnEdge>, e: nat): (r: seq<nat>)
    requires e < |es| && TwinsInRange(es)
  {
    if es[e].twin.Some? then [es[es[e].twin.value].face] else []
  }

  /** The faces across the half-edges at steps `1 .. k - 1` of the walk
      from `e0`, in walk order. */
  ghost function Across(es: seq<ConnEdge>, e0: nat, k: nat): (r: seq<nat>)
    requires Closed(Nexts(es)) && TwinsInRange(es) && e0 < |es|
  {
    if k <= 1 then [] else Across(es, e0, k - 1) + TwinFace(es, Iter(Nexts(es), e0, k - 1))
  }

  /** `verts` is the full vertex cycle of face `f`, read from half-edge
      `e0` of that face, which the walk returns to after `k` steps. */
  ghost predicate Traced(es: seq<ConnEdge>, f: nat, e0: nat, k: nat, verts: seq<nat>)
  {
    && Closed(Nexts(es)) && e0 < |es| && es[e0].face == f
    && FirstReturn(Nexts(es), e0, k) && verts == Origins(es, e0, k)
  }

  /** `ns` lists the faces across the half-edges of the cycle from `e0`:
      those after `e0` in walk order, then the one across `e0` itself. */
  ghost predicate Bordered(es: seq<ConnEdge>, e0: nat, k: nat, ns: seq<nat>)
  {
    && Closed(Nexts(es)) && TwinsInRange(es) && e0 < |es|
    && ns == Across(es, e0, k) + TwinFace(es, e0)
  }

  /** `rf` lists the faces of the half-edges on the root stack. */
  ghost predicate FacesOf(es: seq<ConnEdge>, roots: seq<nat>, rf: seq<nat>)
  {
    |rf| == |roots| && forall i :: 0 <= i < |roots| ==> roots[i] < |es| && rf[i] == es[roots[i]].face
  }

  /** Every root waiting on the stack was pushed across a twin from a face
      already traced, or is half-edge 0 when that has no twin. */
  ghost predicate Parented(es: seq<ConnEdge>, roots: seq<nat>, done: set<nat>)
    requires TwinsInRange(es) && forall i :: 0 <= i < |roots| ==> roots[i] < |es|
  {
    forall i :: 0 <= i < |roots| ==>
      if es[roots[i]].twin.Some? then es[es[roots[i]].twin.value].face in done else roots[i] == 0
  }

  /** The state the walk keeps between faces: the root stack with its
      faces `rf`, `Sf` holding the same faces, each traced face's cycle
      with its root and length in `visit`, and, with agreeing face labels,
      the network entries keyed as the polygons are.  When the labels agree,
      twins pair up and half-edge 0 has no twin, every waiting root has a
      traced parent and every listed neighbour is traced or waiting. */
  ghost predicate Walking(es: seq<ConnEdge>, visit: map<nat, (nat, nat)>, net: Network,
                          polys: map<nat, seq<nat>>, roots: seq<nat>, Sf: seq<nat>, rf: seq<nat>)
  {
    && Closed(Nexts(es)) && TwinsInRange(es) && |es| > 0
    && FacesOf(es, roots, rf) && multiset(Sf) == multiset(rf)
    && Keyed(net)
    && (es[0].face in polys || es[0].face in Sf)
    && (forall f {:trigger f in polys} :: f in polys ==> f in visit && Traced(es, f, visit[f].0, visit[f].1, polys[f]))
    && (FacesAgree(es) ==> net.adj.Keys == polys.Keys)
    && (FacesAgree(es) ==> forall f {:trigger f in net.adj} :: f in net.adj ==>
         f in visit && Bordered(es, visit[f].0, visit[f].1, net.adj[f]))
    && (FacesAgree(es) && es[0].twin.None? && TwinsPaired(es) ==>
         && Parented(es, roots, polys.Keys)
         && forall f, g {:trigger g in net.adj[f]} :: f in net.adj && g in net.adj[f] ==> g in polys || g in Sf)
  }

  /** The walk's state once root `e0` is popped off `roots0`. */
  ghost predicate Popped(es: seq<ConnEdge>, e0: nat, visit0: map<nat, (nat, nat)>, net0: Network,
                         polys0: map<nat, seq<nat>>, roots0: seq<nat>, Sf0: seq<nat>, rf0: seq<nat>)
  {
    && Closed(Nexts(es)) && TwinsInRange(es) && e0 < |es|
    && FacesOf(es, roots0, rf0) && multiset(Sf0) == multiset(rf0) + multiset{es[e0].face}
    && Keyed(net0)
    && (es[0].face in polys0 || es[0].face in Sf0)
    && (forall f {:trigger f in polys0} :: f in polys0 ==> f in visit0 && Traced(es, f, visit0[f].0, visit0[f].1, polys0[f]))
    && (FacesAgree(es) ==> net0.adj.Keys == polys0.Keys)
    && (FacesAgree(es) ==> forall f {:trigger f in net0.adj} :: f in net0.adj ==>
         f in visit0 && Bordered(es, visit0[f].0, visit0[f].1, net0.adj[f]))
    && (FacesAgree(es) && es[0].twin.None? && TwinsPaired(es) ==>
         && Parented(es, roots0 + [e0], polys0.Keys)
         && forall f, g {:trigger g in net0.adj[f]} :: f in net0.adj && g in net0.adj[f] ==> g in polys0 || g in Sf0)
  }

  /** The walk starts from half-edge 0 alone. */
  lemma WalkStart(es: seq<ConnEdge>)
    requires Closed(Nexts(es)) && TwinsInRange(es) && |es| > 0
    ensures Walking(es, map[], Network([], map[]), map[], [0], [es[0].face], [es[0].face])
  {
  }

  /** Taking the top root off the stack. */
  lemma PopRoot(es: seq<ConnEdge>, visit: map<nat, (nat, nat)>, net: Network,
                polys: map<nat, seq<nat>>, roots: seq<nat>, Sf: seq<nat>, rf: seq<nat>)
    requires Walking(es, visit, net, polys, roots, Sf, rf) && |roots| > 0
    ensures Popped(es, roots[|roots| - 1], visit, net, polys, roots[..|roots| - 1], Sf, rf[..|rf| - 1])
  {
    var e0 := roots[|roots| - 1];
    assert rf == rf[..|rf| - 1] + [es[e0].face];
    assert roots == roots[..|roots| - 1] + [e0];
  }

  /** With the stack empty, `Sf` is empty, so every face listed is traced. */
  lemma WalkDone(es: seq<ConnEdge>, visit: map<nat, (nat, nat)>, net: Network,
                 polys: map<nat, seq<nat>>, Sf: seq<nat>, rf: seq<nat>)
    requires Walking(es, visit, net, polys, [], Sf, rf)
    ensures es[0].face in polys
    ensures FacesAgree(es) && es[0].twin.None? && TwinsPaired(es) ==>
      forall f, g {:trigger g in net.adj[f]} :: f in net.adj && g in net.adj[f] ==> g in polys
  {
    assert |multiset(Sf)| == 0;
  }

  /** The half-edge walk of `gen_face_data`.  Starting from half-edge 0, it
      pops a root, walks its face cycle recording origins and the faces
      across twins, pushes a twin whose face is not in `Sf`, and finally
      removes the root's face from `Sf`.  `fuel` bounds the number of
      faces walked: the source gives no bound.  `visit` names, for each
      traced face, the root its cycle was read from and the cycle's
      length. */
  method WalkFaces(mesh: Mesh, fuel: nat) returns (r: Result<(Network, map<nat, seq<nat>>)>, ghost visit: map<nat, (nat, nat)>)
    requires mesh.Valid()
    ensures r.Err? ==> r.error == IndexError || r.error == KeyError || r.error == OutOfFuel
    ensures (r.Err? && r.error == IndexError) <==> |mesh.edges| == 0
    ensures FacesAgree(mesh.edges) ==> !(r.Err? && r.error == KeyError)
    ensures r.Ok? ==> Keyed(r.value.0) && mesh.edges[0].face in r.value.1
    ensures r.Ok? ==> forall f {:trigger f in r.value.1} :: f in r.value.1 ==>
      f in visit && Traced(mesh.edges, f, visit[f].0, visit[f].1, r.value.1[f])
    ensures r.Ok? && FacesAgree(mesh.edges) ==>
      && r.value.0.adj.Keys == r.value.1.Keys
      && forall f {:trigger f in r.value.0.adj} :: f in r.value.0.adj ==> f in visit && Bordered(mesh.edges, visit[f].0, visit[f].1, r.value.0.adj[f])
    ensures r.Ok? && FacesAgree(mesh.edges) && mesh.edges[0].twin.None? && TwinsPaired(mesh.edges) ==>
      forall f, g {:trigger g in r.value.0.adj[f]} :: f in r.value.0.adj && g in r.value.0.adj[f] ==> g in r.value.1
  {
    visit := map[];
    var es := mesh.edges;
    if |es| == 0 {
      return Err(IndexError), visit;
    }
    ghost var nx := Nexts(es);
    NextsPermute(es);
    ValidTwinsInRange(mesh.verts, es, mesh.faces);
    var net := Network([], map[]);
    var polys: map<nat, seq<nat>> := map[];
    var roots: seq<nat> := [0];
    var Sf: seq<nat> := [es[0].face];
    ghost var rf: seq<nat> := Sf;
    var spent: nat := 0;
    WalkStart(es);
    while |roots| > 0
      invariant spent <= fuel
      invariant Walking(es, visit, net, polys, roots, Sf, rf)
      decreases fuel - spent
    {
      if spent == fuel {
        return Err(OutOfFuel), visit;
      }
      spent := spent + 1;
      var e0 := roots[|roots| - 1];
      PopRoot(es, visit, net, polys, roots, Sf, rf);
      roots, rf := roots[..|roots| - 1], rf[..|rf| - 1];
      r, visit, net, polys, roots, Sf, rf := WalkFace(es, e0, nx, visit, net, polys, roots, Sf, rf);
      if r.Err? {
        return;
      }
    }
    WalkDone(es, visit, net, polys, Sf, rf);
    r := Ok((net, polys));
  }

  /** One face of the walk: the cycle from `e0`, then the face's entry in
      the polygons and the removal of its face from `Sf`.  `r` is Ok with
      a value of no meaning when the walk may go on. */
  method WalkFace(es: seq<ConnEdge>, e0: nat, ghost nx: seq<nat>, ghost visit0: map<nat, (nat, nat)>,
                  net0: Network, polys0: map<nat, seq<nat>>, roots0: seq<nat>, Sf0: seq<nat>, ghost rf0: seq<nat>)
    returns (r: Result<(Network, map<nat, seq<nat>>)>, ghost visit: map<nat, (nat, nat)>,
             net: Network, polys: map<nat, seq<nat>>, roots: seq<nat>, Sf: seq<nat>, ghost rf: seq<nat>)
    requires nx == Nexts(es) && Injective(nx)
    requires Popped(es, e0, visit0, net0, polys0, roots0, Sf0, rf0)
    ensures r.Err? ==> r.error == KeyError && !FacesAgree(es)
    ensures r.Ok? ==> Walking(es, visit, net, polys, roots, Sf, rf)
  {
    var f0 := es[e0].face;
    ghost var agree := FacesAgree(es);
    ghost var tree := FacesAgree(es) && es[0].twin.None? && TwinsPaired(es);
    if tree {
      assert (roots0 + [e0])[|roots0|] == e0;
    }
    var ok, verts;
    ghost var k, pushed;
    ok, verts, k, net, roots, Sf, rf, pushed := TraceCycle(es, e0, nx, polys0.Keys, net0, roots0, Sf0, rf0);
    visit, polys := visit0, polys0;
    if !ok {
      return Err(KeyError), visit, net, polys, roots, Sf, rf;
    }
    ghost var grown := Sf;
    polys := polys[f0 := verts];
    visit := visit[f0 := (e0, k)];
    var rest := Remove(Sf, f0);
    RemoveCancels(Sf, f0, rf);
    Sf := rest.value;
    TracedAfter(es, polys0, visit0, f0, e0, k, verts, polys, visit);
    if agree {
      BorderedAfter(es, net0, net, polys0, visit0, f0, e0, k, verts, polys, visit);
    }
    if tree {
      ParentedAfter(es, roots0, e0, roots, polys0.Keys);
      ClosedAfter(net0, net, polys0, Sf0, grown, Sf, f0, polys);
    }
    if es[0].face !in polys {
      assert es[0].face in grown;
      RemoveKeeps(grown, f0, Sf, es[0].face);
    }
    r := Ok((net, polys));
  }

  /** Removing `x` from a sequence that holds `rf` and one `x` leaves `rf`. */
  lemma RemoveCancels(s: seq<nat>, x: nat, rf: seq<nat>)
    requires multiset(s) == multiset(rf) + multiset{x}
    ensures Remove(s, x).Some? && multiset(Remove(s, x).value) == multiset(rf)
  {
    assert x in multiset(s);
  }

  /** Python's `remove` keeps every other value. */
  lemma RemoveKeeps(s: seq<nat>, x: nat, r: seq<nat>, y: nat)
    requires Remove(s, x) == Some(r) && y in s && y != x
    ensures y in r
  {
    assert y in multiset(s);
  }

  /** Recording face `f0`'s cycle keeps every recorded cycle traced. */
  lemma TracedAfter(es: seq<ConnEdge>, polys0: map<nat, seq<nat>>, visit0: map<nat, (nat, nat)>,
                    f0: nat, e0: nat, k: nat, verts: seq<nat>,
                    polys: map<nat, seq<nat>>, visit: map<nat, (nat, nat)>)
    requires forall f {:trigger f in polys0} :: f in polys0 ==> f in visit0 && Traced(es, f, visit0[f].0, visit0[f].1, polys0[f])
    requires Closed(Nexts(es)) && e0 < |es| && es[e0].face == f0
    requires FirstReturn(Nexts(es), e0, k) && verts == Origins(es, e0, k)
    requires polys == polys0[f0 := verts] && visit == visit0[f0 := (e0, k)]
    ensures forall f {:trigger f in polys} :: f in polys ==> f in visit && Traced(es, f, visit[f].0, visit[f].1, polys[f])
  {
    forall f | f in polys
      ensures f in visit && Traced(es, f, visit[f].0, visit[f].1, polys[f])
    {
      if f != f0 {
        assert f in polys0;
      }
    }
  }

  /** With face labels agreeing, the network entry written for `f0` and the
      untouched entries of other faces are all bordered lists. */
  lemma BorderedAfter(es: seq<ConnEdge>, net0: Network, net: Network, polys0: map<nat, seq<nat>>,
                      visit0: map<nat, (nat, nat)>, f0: nat, e0: nat, k: nat, verts: seq<nat>,
                      polys: map<nat, seq<nat>>, visit: map<nat, (nat, nat)>)
    requires net0.adj.Keys == polys0.Keys
    requires forall f {:trigger f in net0.adj} :: f in net0.adj ==>
      f in visit0 && Bordered(es, visit0[f].0, visit0[f].1, net0.adj[f])
    requires net.adj.Keys == net0.adj.Keys + {f0}
    requires Bordered(es, e0, k, net.adj[f0])
    requires forall f {:trigger f in net0.adj} :: f in net0.adj && f != f0 ==> net.adj[f] == net0.adj[f]
    requires polys == polys0[f0 := verts] && visit == visit0[f0 := (e0, k)]
    ensures net.adj.Keys == polys.Keys
    ensures forall f {:trigger f in net.adj} :: f in net.adj ==>
      f in visit && Bordered(es, visit[f].0, visit[f].1, net.adj[f])
  {
    forall f | f in net.adj
      ensures f in visit && Bordered(es, visit[f].0, visit[f].1, net.adj[f])
    {
      if f != f0 {
        assert f in net0.adj;
      }
    }
  }

  /** The roots left after face `f0` was walked all have their parents
      traced. */
  lemma ParentedAfter(es: seq<ConnEdge>, roots0: seq<nat>, e0: nat, roots: seq<nat>, done: set<nat>)
    requires TwinsInRange(es) && e0 < |es|
    requires forall i :: 0 <= i < |roots0| ==> roots0[i] < |es|
    requires forall i :: 0 <= i < |roots| ==> roots[i] < |es|
    requires Parented(es, roots0 + [e0], done)
    requires |roots| >= |roots0| && roots[..|roots0|] == roots0
    requires forall i :: |roots0| <= i < |roots| ==>
      es[roots[i]].twin.Some? && es[es[roots[i]].twin.value].face == es[e0].face
    ensures Parented(es, roots, done + {es[e0].face})
  {
    forall i | 0 <= i < |roots|
      ensures if es[roots[i]].twin.Some? then es[es[roots[i]].twin.value].face in done + {es[e0].face} else roots[i] == 0
    {
      if i < |roots0| {
        assert roots[i] == roots0[i] == (roots0 + [e0])[i];
      }
    }
  }

  /** Every neighbour listed is traced or still waiting in `Sf` once face
      `f0` is recorded and removed from `Sf`. */
  lemma ClosedAfter(net0: Network, net: Network, polys0: map<nat, seq<nat>>, Sf0: seq<nat>, grown: seq<nat>,
                    Sf: seq<nat>, f0: nat, polys: map<nat, seq<nat>>)
    requires forall f, g {:trigger g in net0.adj[f]} :: f in net0.adj && g in net0.adj[f] ==> g in polys0 || g in Sf0
    requires forall g {:trigger g in Sf0} :: g in Sf0 ==> g in grown
    requires net.adj.Keys == net0.adj.Keys + {f0}
    requires forall f {:trigger f in net0.adj} :: f in net0.adj && f != f0 ==> net.adj[f] == net0.adj[f]
    requires forall g {:trigger g in net.adj[f0]} :: g in net.adj[f0] ==> g in grown || g in polys0
    requires Remove(grown, f0) == Some(Sf)
    requires f0 in polys && forall f {:trigger f in polys0} :: f in polys0 ==> f in polys
    ensures forall f, g {:trigger g in net.adj[f]} :: f in net.adj && g in net.adj[f] ==> g in polys || g in Sf
  {
    forall f, g | f in net.adj && g in net.adj[f]
      ensures g in polys || g in Sf
    {
      if f != f0 {
        assert g in net0.adj[f];
      }
      if g !in polys0 && g != f0 {
        RemoveKeeps(grown, f0, Sf, g);
      }
    }
  }

  /** The walk around one face, from the half-edge after `e0` back to
      `e0`: the origins in walk order, the face across each twin appended
      to the network entry of the half-edge's face, and each twin whose face
      is not yet in `Sf` pushed as a root, its face onto `Sf`.  `ok` is
      false on the KeyError of a face label missing from the network.
      `done` holds the faces already traced. */
  method TraceCycle(es: seq<ConnEdge>, e0: nat, ghost nx: seq<nat>, ghost done: set<nat>,
                    net0: Network, roots0: seq<nat>, Sf0: seq<nat>, ghost rf0: seq<nat>)
    returns (ok: bool, verts: seq<nat>, ghost k: nat, net: Network, roots: seq<nat>, Sf: seq<nat>,
             ghost rf: seq<nat>, ghost pushed: seq<nat>)
    requires nx == Nexts(es) && Closed(nx) && Injective(nx) && TwinsInRange(es) && e0 < |es|
    requires FacesOf(es, roots0, rf0) && Keyed(net0)
    requires multiset(Sf0) == multiset(rf0) + multiset{es[e0].face}
    requires FacesAgree(es) && TwinsPaired(es) && es[0].twin.None? && es[e0].twin.Some? ==>
      es[es[e0].twin.value].face in done
    ensures Keyed(net)
    ensures FacesOf(es, roots, rf) && Sf == Sf0 + pushed && rf == rf0 + pushed
    ensures multiset(Sf) == multiset(rf) + multiset{es[e0].face}
    ensures forall g {:trigger g in Sf0} :: g in Sf0 ==> g in Sf
    ensures |roots| >= |roots0| && roots[..|roots0|] == roots0
    ensures !ok ==> !FacesAgree(es)
    ensures ok ==> FirstReturn(nx, e0, k) && verts == Origins(es, e0, k)
    ensures ok && FacesAgree(es) ==>
      && net.adj.Keys == net0.adj.Keys + {es[e0].face}
      && Bordered(es, e0, k, net.adj[es[e0].face])
      && forall f {:trigger f in net0.adj} :: f in net0.adj && f != es[e0].face ==> net.adj[f] == net0.adj[f]
    ensures FacesAgree(es) && TwinsPaired(es) ==> forall i :: |roots0| <= i < |roots| ==>
      es[roots[i]].twin.Some? && es[es[roots[i]].twin.value].face == es[e0].face
    ensures ok && FacesAgree(es) && TwinsPaired(es) && es[0].twin.None? ==>
      forall g {:trigger g in net.adj[es[e0].face]} :: g in net.adj[es[e0].face] ==> g in Sf || g in done
  {
    var f0 := es[e0].face;
    var e := es[e0].next;
    assert e == nx[e0];
    if FacesAgree(es) {
      WalkStaysOnFace(es, e0, 1);
    }
    var start := SetKey(net0, es[e].face, []);
    ok, verts, k, net, roots, Sf, rf, pushed := WalkCycle(es, e0, nx, net0, start, roots0, Sf0, rf0);
    if !ok {
      return;
    }
    ghost var before := net;
    ok, net := AppendAcross(es, e0, f0, net);
    assert multiset(Sf) == multiset(Sf0) + multiset(pushed);
    assert multiset(rf) == multiset(rf0) + multiset(pushed);
  }

  /** The loop of the walk around one face: every half-edge after `e0` up
      to the return to `e0`. */
  method WalkCycle(es: seq<ConnEdge>, e0: nat, ghost nx: seq<nat>, ghost net0: Network, start: Network,
                   roots0: seq<nat>, Sf0: seq<nat>, ghost rf0: seq<nat>)
    returns (ok: bool, verts: seq<nat>, ghost k: nat, net: Network, roots: seq<nat>, Sf: seq<nat>,
             ghost rf: seq<nat>, ghost pushed: seq<nat>)
    requires nx == Nexts(es) && Closed(nx) && Injective(nx) && TwinsInRange(es) && e0 < |es|
    requires FacesOf(es, roots0, rf0) && Keyed(start)
    requires FacesAgree(es) ==>
      && start.adj.Keys == net0.adj.Keys + {es[e0].face} && start.adj[es[e0].face] == []
      && forall f {:trigger f in net0.adj} :: f in net0.adj && f != es[e0].face ==> start.adj[f] == net0.adj[f]
    ensures Keyed(net)
    ensures FacesOf(es, roots, rf) && Sf == Sf0 + pushed && rf == rf0 + pushed
    ensures |roots| >= |roots0| && roots[..|roots0|] == roots0
    ensures !ok ==> !FacesAgree(es)
    ensures ok ==> FirstReturn(nx, e0, k) && verts == Origins(es, e0, k)
    ensures ok && FacesAgree(es) ==>
      && net.adj.Keys == net0.adj.Keys + {es[e0].face} && net.adj[es[e0].face] == Across(es, e0, k)
      && forall f {:trigger f in net0.adj} :: f in net0.adj && f != es[e0].face ==> net.adj[f] == net0.adj[f]
    ensures FacesAgree(es) && TwinsPaired(es) ==>
      && (forall i :: |roots0| <= i < |roots| ==>
           es[roots[i]].twin.Some? && es[es[roots[i]].twin.value].face == es[e0].face)
      && (ok ==> forall g {:trigger g in net.adj[es[e0].face]} :: g in net.adj[es[e0].face] ==> g in Sf)
  {
    net, roots, Sf, rf, pushed := start, roots0, Sf0, rf0, [];
    var e := es[e0].next;
    assert e == nx[e0];
    verts := [es[e0].origin];
    k := 1;
    assert Sf0 + [] == Sf0 && rf0 + [] == rf0 && roots0[..|roots0|] == roots0;
    while e != e0
      invariant Cycling(es, e0, net0, roots0, Sf0, rf0, e, k, verts, net, roots, Sf, rf, pushed)
      decreases |es| - k
    {
      ok, e, k, verts, net, roots, Sf, rf, pushed := CycleStep(es, e0, nx, net0, roots0, Sf0, rf0, e, k, verts, net, roots, Sf, rf, pushed);
      if !ok {
        return;
      }
    }
    ok := true;
  }

  /** What one face's walk keeps of the stack whatever happens: roots only
      pushed, their faces pushed onto `Sf` alongside, and, with agreeing
      labels and paired twins, each pushed root the twin of a half-edge of
      face `es[e0].face`. */
  ghost predicate Stacked(es: seq<ConnEdge>, e0: nat, roots0: seq<nat>, Sf0: seq<nat>, rf0: seq<nat>,
                          net: Network, roots: seq<nat>, Sf: seq<nat>, rf: seq<nat>, pushed: seq<nat>)
  {
    && TwinsInRange(es) && e0 < |es| && Keyed(net)
    && FacesOf(es, roots, rf) && Sf == Sf0 + pushed && rf == rf0 + pushed
    && |roots| >= |roots0| && roots[..|roots0|] == roots0
    && (FacesAgree(es) && TwinsPaired(es) ==> forall i :: |roots0| <= i < |roots| ==>
         es[roots[i]].twin.Some? && es[es[roots[i]].twin.value].face == es[e0].face)
  }

  /** The state of the walk around face `es[e0].face` after `k` steps,
      standing on half-edge `e`. */
  ghost predicate Cycling(es: seq<ConnEdge>, e0: nat, net0: Network, roots0: seq<nat>, Sf0: seq<nat>, rf0: seq<nat>,
                          e: nat, k: nat, verts: seq<nat>, net: Network, roots: seq<nat>, Sf: seq<nat>,
                          rf: seq<nat>, pushed: seq<nat>)
  {
    && Closed(Nexts(es))
    && Stacked(es, e0, roots0, Sf0, rf0, net, roots, Sf, rf, pushed)
    && 1 <= k && e == Iter(Nexts(es), e0, k)
    && (forall i :: 1 <= i < k ==> Iter(Nexts(es), e0, i) != e0)
    && verts == Origins(es, e0, k)
    && (FacesAgree(es) ==>
         && net.adj.Keys == net0.adj.Keys + {es[e0].face} && net.adj[es[e0].face] == Across(es, e0, k)
         && forall f {:trigger f in net0.adj} :: f in net0.adj && f != es[e0].face ==> net.adj[f] == net0.adj[f])
    && (FacesAgree(es) && TwinsPaired(es) ==>
         forall g {:trigger g in net.adj[es[e0].face]} :: g in net.adj[es[e0].face] ==> g in Sf)
  }

  /** One step of the walk around a face: half-edge `e` is crossed, its
      origin recorded, and the walk moves to `e.next`. */
  method CycleStep(es: seq<ConnEdge>, e0: nat, ghost nx: seq<nat>, ghost net0: Network,
                   ghost roots0: seq<nat>, ghost Sf0: seq<nat>, ghost rf0: seq<nat>,
                   e: nat, ghost k: nat, verts: seq<nat>, net: Network, roots: seq<nat>, Sf: seq<nat>,
                   ghost rf: seq<nat>, ghost pushed: seq<nat>)
    returns (ok: bool, e': nat, ghost k': nat, verts': seq<nat>, net': Network, roots': seq<nat>, Sf': seq<nat>,
             ghost rf': seq<nat>, ghost pushed': seq<nat>)
    requires nx == Nexts(es) && Injective(nx) && e != e0
    requires Cycling(es, e0, net0, roots0, Sf0, rf0, e, k, verts, net, roots, Sf, rf, pushed)
    ensures k' == k + 1 && k' <= |es|
    ensures Stacked(es, e0, roots0, Sf0, rf0, net', roots', Sf', rf', pushed')
    ensures !ok ==> !FacesAgree(es)
    ensures ok ==> Cycling(es, e0, net0, roots0, Sf0, rf0, e', k', verts', net', roots', Sf', rf', pushed')
  {
    var f0 := es[e0].face;
    WalkBound(nx, e0, k);
    if FacesAgree(es) {
      WalkStaysOnFace(es, e0, k);
    }
    assert e == nx[Iter(nx, e0, k - 1)] && e < |es|;
    assert Iter(nx, e0, k + 1) == es[e].next;
    assert Origins(es, e0, k + 1) == Origins(es, e0, k) + [es[e].origin];
    assert Across(es, e0, k + 1) == Across(es, e0, k) + TwinFace(es, e);
    ghost var grown;
    ok, net', roots', Sf', rf', pushed', grown := CrossEdge(es, e, f0, net, roots, Sf, rf, pushed);
    assert roots'[..|roots0|] == roots[..|roots|][..|roots0|];
    verts' := verts + [es[e].origin];
    e' := es[e].next;
    k' := k + 1;
  }

  /** `network[e.face] += [e.twin.face]` for a half-edge with a twin; `ok`
      is false on the KeyError of a face that is no key. */
  method AppendAcross(es: seq<ConnEdge>, e: nat, ghost f0: nat, net0: Network) returns (ok: bool, net: Network)
    requires e < |es| && TwinsInRange(es) && Keyed(net0)
    ensures ok <==> es[e].twin.None? || es[e].face in net0.adj
    ensures Keyed(net)
    ensures ok && es[e].face == f0 && f0 in net0.adj ==>
      && net.adj.Keys == net0.adj.Keys
      && net.adj[f0] == net0.adj[f0] + TwinFace(es, e)
      && forall f {:trigger f in net0.adj} :: f in net0.adj && f != f0 ==> net.adj[f] == net0.adj[f]
    ensures ok ==> forall f, g {:trigger g in net.adj[f]} :: f in net.adj && g in net.adj[f] ==>
      (f in net0.adj && g in net0.adj[f]) || g in TwinFace(es, e)
  {
    net := net0;
    ok := true;
    if es[e].twin.Some? {
      if es[e].face !in net.adj {
        return false, net;
      }
      net := SetKey(net, es[e].face, net.adj[es[e].face] + [es[es[e].twin.value].face]);
    }
  }

  /** One half-edge `e` on the walk around face `f0`: the face across is
      appended as above, and the twin is pushed as a root when its face is
      not in `Sf`. */
  method CrossEdge(es: seq<ConnEdge>, e: nat, ghost f0: nat, net0: Network, roots0: seq<nat>, Sf0: seq<nat>,
                   ghost rf0: seq<nat>, ghost pushed0: seq<nat>)
    returns (ok: bool, net: Network, roots: seq<nat>, Sf: seq<nat>, ghost rf: seq<nat>, ghost pushed: seq<nat>,
             ghost grown: seq<nat>)
    requires e < |es| && TwinsInRange(es) && Keyed(net0)
    requires FacesOf(es, roots0, rf0)
    ensures ok <==> es[e].twin.None? || es[e].face in net0.adj
    ensures Keyed(net) && FacesOf(es, roots, rf)
    ensures Sf == Sf0 + grown && rf == rf0 + grown && pushed == pushed0 + grown
    ensures |roots| >= |roots0| && roots[..|roots0|] == roots0
    ensures ok && es[e].face == f0 && f0 in net0.adj ==>
      && net.adj.Keys == net0.adj.Keys
      && net.adj[f0] == net0.adj[f0] + TwinFace(es, e)
      && forall f {:trigger f in net0.adj} :: f in net0.adj && f != f0 ==> net.adj[f] == net0.adj[f]
    ensures es[e].face == f0 && TwinsPaired(es) ==> forall i :: |roots0| <= i < |roots| ==>
      es[roots[i]].twin.Some? && es[es[roots[i]].twin.value].face == f0
    ensures ok ==> forall f, g {:trigger g in net.adj[f]} :: f in net.adj && g in net.adj[f] ==>
      (f in net0.adj && g in net0.adj[f]) || g in Sf
  {
    roots, Sf, rf, pushed, grown := roots0, Sf0, rf0, pushed0, [];
    ok, net := AppendAcross(es, e, f0, net0);
    if ok && es[e].twin.Some? {
      var t := es[e].twin.value;
      if es[t].face !in Sf {
        if TwinsPaired(es) {
          assert TwinAt(es, e);
        }
        grown := [es[t].face];
        roots, rf, pushed := roots + [t], rf + grown, pushed + grown;
        Sf := Sf + [es[t].face];
      }
    }
  }

  /** The ring the DCEL constructor builds is a single face: the walk from
      half-edge 0 passes the vertices in order and first returns after `n`
      steps. */
  lemma RingIsOneFace(es: seq<ConnEdge>)
    requires |es| > 0
    requires forall i :: 0 <= i < |es| ==>
      es[i] == ConnEdge(i, 0, None, (i - 1) % |es|, (i + 1) % |es|, None)
    ensures Closed(Nexts(es))
    ensures FirstReturn(Nexts(es), 0, |es|)
    ensures Origins(es, 0, |es|) == seq(|es|, i => i)
  {
    var n := |es|;
    var nx := Nexts(es);
    forall i | 0 <= i < n
      ensures nx[i] < n
    {
    }
    RingIter(es, n - 1);
    ModSelf(n);
    RingOrigins(es, n);
  }

  lemma {:induction false} RingOrigins(es: seq<ConnEdge>, i: nat)
    requires |es| > 0 && i <= |es|
    requires forall j :: 0 <= j < |es| ==>
      es[j] == ConnEdge(j, 0, None, (j - 1) % |es|, (j + 1) % |es|, None)
    requires Closed(Nexts(es))
    ensures Origins(es, 0, i) == seq(i, j => j)
  {
    if i > 0 {
      RingOrigins(es, i - 1);
      RingIter(es, i - 1);
      assert Iter(Nexts(es), 0, i - 1) == i - 1;
      assert seq(i, j => j) == seq(i - 1, j => j) + [i - 1];
    }
  }

  lemma {:induction false} RingIter(es: seq<ConnEdge>, i: nat)
    requires |es| > 0 && i < |es|
    requires forall j :: 0 <= j < |es| ==>
      es[j] == ConnEdge(j, 0, None, (j - 1) % |es|, (j + 1) % |es|, None)
    requires Closed(Nexts(es))
    ensures forall j :: 0 <= j <= i ==> Iter(Nexts(es), 0, j) == j
  {
    if i > 0 {
      RingIter(es, i - 1);
      ModSmall(i, |es|);
    }
  }

  // ---------------------------------------------------------------------
  // The colouring
  // ---------------------------------------------------------------------

  /** The four colours every face starts from. */
  const Four: seq<nat> := [0, 1, 2, 3]

  /** `g` is a neighbour of `f`, and `f` one of `g`. */
  ghost predicate AdjacentBack(net: Network, f: nat, g: nat)
    requires f in net.adj
  {
    g in net.adj && f in net.adj[g]
  }

  /** Neighbour lists are symmetric: a face lists each face that lists it. */
  ghost predicate Symmetric(net: Network)
  {
    forall f, g {:trigger g in net.adj[f]} :: f in net.adj && g in net.adj[f] ==> AdjacentBack(net, f, g)
  }

  /** No face in `ns` has a colour yet. */
  ghost predicate NoneColoured(ns: seq<nat>, colours: map<nat, nat>)
  {
    forall i :: 0 <= i < |ns| ==> ns[i] !in colours
  }

  /** The inner loop of the colouring: `potentialis.remove(colours[n])` for
      each neighbour `n` that already has a colour, in the order listed;
      None when a colour to remove is no longer there (ValueError). */
  function Strike(avail: seq<nat>, ns: seq<nat>, colours: map<nat, nat>): (r: Option<seq<nat>>)
    ensures r.Some? ==> multiset(r.value) <= multiset(avail)
  {
    if |ns| == 0 then Some(avail)
    else if ns[0] in colours then
      match Remove(avail, colours[ns[0]])
      case None => None
      case Some(rest) => Strike(rest, ns[1..], colours)
    else Strike(avail, ns[1..], colours)
  }
  /** Striking changes nothing when no neighbour is coloured yet, and
      fails (ValueError) only when some neighbour is. */
  lemma {:induction false} StrikeUncoloured(avail: seq<nat>, ns: seq<nat>, colours: map<nat, nat>)
    ensures NoneColoured(ns, colours) ==> Strike(avail, ns, colours) == Some(avail)
    ensures Strike(avail, ns, colours).None? ==> !NoneColoured(ns, colours)
    decreases |ns|
  {
    if |ns| > 0 {
      if ns[0] in colours {
        assert !NoneColoured(ns, colours);
        var rest := Remove(avail, colours[ns[0]]);
        if rest.Some? {
          StrikeUncoloured(rest.value, ns[1..], colours);
          if !NoneColoured(ns[1..], colours) {
            var i :| 0 <= i < |ns[1..]| && ns[1..][i] in colours;
            assert ns[i + 1] in colours;
          }
        }
      } else {
        StrikeUncoloured(avail, ns[1..], colours);
        if NoneColoured(ns, colours) {
          forall i | 0 <= i < |ns[1..]|
            ensures ns[1..][i] !in colours
          {
            assert ns[1..][i] == ns[i + 1];
          }
        }
        if !NoneColoured(ns[1..], colours) {
          var i :| 0 <= i < |ns[1..]| && ns[1..][i] in colours;
          assert ns[i + 1] in colours;
        }
      }
    }
  }


  /** The outer loop of the colouring: each face in key order gets
      `potentialis[c % len(potentialis)]`, `c` counting the faces coloured
      so far; an empty list raises ZeroDivisionError. */
  function Greedy(order: seq<nat>, adj: map<nat, seq<nat>>, c: nat, colours: map<nat, nat>): (r: Result<map<nat, nat>>)
    requires forall f :: f in order ==> f in adj
    ensures r.Err? ==> r.error == ValueError || r.error == ZeroDivisionError
    decreases |order|
  {
    if |order| == 0 then Ok(colours)
    else
      match Strike(Four, adj[order[0]], colours)
      case None => Err(ValueError)
      case Some(avail) =>
        if |avail| == 0 then Err(ZeroDivisionError)
        else Greedy(order[1..], adj, c + 1, colours[order[0] := avail[c % |avail|]])
  }

  /** The colouring part of `gen_face_data`. */
  method Colour(net: Network) returns (r: Result<map<nat, nat>>)
    requires forall f :: f in net.order ==> f in net.adj
    ensures r == Greedy(net.order, net.adj, 0, map[])
  {
    var colours: map<nat, nat> := map[];
    for c := 0 to |net.order|
      invariant Greedy(net.order, net.adj, 0, map[]) == Greedy(net.order[c..], net.adj, c, colours)
    {
      var face := net.order[c];
      var potentialis: seq<nat> := Four;
      var ns := net.adj[face];
      for m := 0 to |ns|
        invariant Strike(Four, ns, colours) == Strike(potentialis, ns[m..], colours)
      {
        assert ns[m..][1..] == ns[m + 1..];
        if ns[m] in colours {
          var rest := Remove(potentialis, colours[ns[m]]);
          if rest.None? {
            return Err(ValueError);
          }
          potentialis := rest.value;
        }
      }
      assert net.order[c..][1..] == net.order[c + 1..];
      if |potentialis| == 0 {
        return Err(ZeroDivisionError);
      }
      colours := colours[face := potentialis[c % |potentialis|]];
    }
    assert net.order[|net.order|..] == [];
    r := Ok(colours);
  }

  /** Removing a value from a list without repeats leaves a list without
      repeats that no longer holds the value. */
  lemma RemoveDistinct(s: seq<nat>, x: nat, r: seq<nat>)
    requires Distinct(s) && Remove(s, x) == Some(r)
    ensures Distinct(r) && x !in r
  {
    var i := FirstIndex(s, x);
    forall j | 0 <= j < |r|
      ensures r[j] != x
    {
      assert r[j] == s[if j < i then j else j + 1];
    }
  }

  /** The colours left after striking are drawn from those available, hold
      no repeats, and include no colour of a neighbour already coloured. */
  lemma {:induction false} StrikeExcludes(avail: seq<nat>, ns: seq<nat>, colours: map<nat, nat>, res: seq<nat>)
    requires Distinct(avail) && Strike(avail, ns, colours) == Some(res)
    ensures Distinct(res)
    ensures forall x :: x in res ==> x in avail
    ensures forall n :: n in ns && n in colours ==> colours[n] !in res
    decreases |ns|
  {
    if |ns| > 0 {
      if ns[0] in colours {
        var rest := Remove(avail, colours[ns[0]]).value;
        RemoveDistinct(avail, colours[ns[0]], rest);
        StrikeExcludes(rest, ns[1..], colours, res);
      } else {
        StrikeExcludes(avail, ns[1..], colours, res);
      }
      forall n | n in ns && n in colours
        ensures colours[n] !in res
      {
        if n != ns[0] {
          assert n in ns[1..];
        }
      }
    }
  }

  /** Each strike removes at most one colour. */
  lemma {:induction false} StrikeLeaves(avail: seq<nat>, ns: seq<nat>, colours: map<nat, nat>, res: seq<nat>)
    requires Strike(avail, ns, colours) == Some(res)
    ensures |res| + |ns| >= |avail|
    decreases |ns|
  {
    if |ns| > 0 {
      if ns[0] in colours {
        StrikeLeaves(Remove(avail, colours[ns[0]]).value, ns[1..], colours, res);
      } else {
        StrikeLeaves(avail, ns[1..], colours, res);
      }
    }
  }

  /** Every face in the order gets one of the four colours, and colours
      given beforehand are kept. */
  lemma {:induction false} GreedyKeeps(order: seq<nat>, adj: map<nat, seq<nat>>, c: nat, colours: map<nat, nat>, res: map<nat, nat>)
    requires forall f :: f in order ==> f in adj
    requires Distinct(order) && forall f :: f in order ==> f !in colours
    requires Greedy(order, adj, c, colours) == Ok(res)
    ensures forall f :: f in colours ==> f in res && res[f] == colours[f]
    ensures forall i :: 0 <= i < |order| ==> order[i] in res && res[order[i]] < 4
    decreases |order|
  {
    if |order| > 0 {
      var rest := order[1..];
      var cf := GreedyStep(order, adj, c, colours, res);
      GreedyKeeps(rest, adj, c + 1, colours[order[0] := cf], res);
      forall i | 0 < i < |order|
        ensures order[i] in res && res[order[i]] < 4
      {
        assert order[i] == rest[i - 1];
      }
    }
  }

  /** Face `order[i]` is coloured, and differs in colour from each of its
      neighbours coloured beforehand or earlier in the order. */
  ghost predicate ProperAt(order: seq<nat>, adj: map<nat, seq<nat>>, colours: map<nat, nat>, res: map<nat, nat>, i: nat)
  {
    && i < |order| && order[i] in adj && order[i] in res
    && forall n :: n in adj[order[i]] && (n in colours || n in order[..i]) ==> n in res && res[n] != res[order[i]]
  }

  /** The colouring is proper towards earlier faces: every face in the
      order gets one of the four colours, and none shares its colour with a
      neighbour coloured before it.  Colours given beforehand are kept. */
  lemma {:induction false} GreedyProper(order: seq<nat>, adj: map<nat, seq<nat>>, c: nat, colours: map<nat, nat>, res: map<nat, nat>)
    requires forall f :: f in order ==> f in adj
    requires Distinct(order) && forall f :: f in order ==> f !in colours
    requires Greedy(order, adj, c, colours) == Ok(res)
    ensures forall f :: f in colours ==> f in res && res[f] == colours[f]
    ensures forall i :: 0 <= i < |order| ==> order[i] in res && res[order[i]] < 4
    ensures forall i :: 0 <= i < |order| ==> ProperAt(order, adj, colours, res, i)
    decreases |order|
  {
    GreedyKeeps(order, adj, c, colours, res);
    if |order| > 0 {
      var f := order[0];
      var rest := order[1..];
      var cf := GreedyStep(order, adj, c, colours, res);
      GreedyProper(rest, adj, c + 1, colours[f := cf], res);
      forall i | 0 <= i < |order|
        ensures ProperAt(order, adj, colours, res, i)
      {
        if i == 0 {
          assert order[..0] == [];
        } else {
          assert ProperAt(rest, adj, colours[f := cf], res, i - 1);
          assert order[..i] == [f] + rest[..i - 1];
          assert order[i] == rest[i - 1];
        }
      }
    }
  }

  /** One face of the greedy colouring: the rest of the order is coloured
      from the colours with the first face's added, and still meets the
      requirements of `GreedyProper`. */
  lemma GreedyStep(order: seq<nat>, adj: map<nat, seq<nat>>, c: nat, colours: map<nat, nat>, res: map<nat, nat>) returns (cf: nat)
    requires |order| > 0 && forall f :: f in order ==> f in adj
    requires Distinct(order) && forall f :: f in order ==> f !in colours
    requires Greedy(order, adj, c, colours) == Ok(res)
    ensures cf < 4 && forall n :: n in adj[order[0]] && n in colours ==> colours[n] != cf
    ensures Greedy(order[1..], adj, c + 1, colours[order[0] := cf]) == Ok(res)
    ensures Distinct(order[1..])
    ensures forall g :: g in order[1..] ==> g in adj && g !in colours[order[0] := cf]
  {
    var rest := order[1..];
    cf := GreedyHead(order, adj, c, colours);
    forall i, j | 0 <= i < j < |rest|
      ensures rest[i] != rest[j]
    {
      assert rest[i] == order[i + 1] && rest[j] == order[j + 1];
    }
    forall g | g in rest
      ensures g in adj && g !in colours[order[0] := cf]
    {
      var i :| 0 <= i < |rest| && rest[i] == g;
      assert order[i + 1] == g;
    }
  }

  /** The colour the first face of the order gets: one of the four, none of
      its already coloured neighbours' colours. */
  lemma GreedyHead(order: seq<nat>, adj: map<nat, seq<nat>>, c: nat, colours: map<nat, nat>) returns (cf: nat)
    requires |order| > 0 && forall f :: f in order ==> f in adj
    requires Greedy(order, adj, c, colours).Ok?
    ensures cf < 4 && forall n :: n in adj[order[0]] && n in colours ==> colours[n] != cf
    ensures Greedy(order, adj, c, colours) == Greedy(order[1..], adj, c + 1, colours[order[0] := cf])
  {
    var avail := Strike(Four, adj[order[0]], colours).value;
    StrikeExcludes(Four, adj[order[0]], colours, avail);
    cf := avail[c % |avail|];
    assert cf in avail;
  }

  /** With every face's neighbour list symmetric, the colouring is proper
      between any two neighbouring faces. */
  lemma ColouringProper(net: Network, res: map<nat, nat>)
    requires Keyed(net) && Symmetric(net)
    requires Greedy(net.order, net.adj, 0, map[]) == Ok(res)
    ensures forall f :: f in net.adj ==> f in res && res[f] < 4
    ensures forall f, g :: f in net.adj && g in net.adj[f] && f != g ==> res[f] != res[g]
  {
    GreedyProper(net.order, net.adj, 0, map[], res);
    forall f | f in net.adj
      ensures f in res && res[f] < 4
    {
      assert f in net.order;
      var i :| 0 <= i < |net.order| && net.order[i] == f;
    }
    forall f, g | f in net.adj && g in net.adj[f] && f != g
      ensures res[f] != res[g]
    {
      assert AdjacentBack(net, f, g);
      assert f in net.order && g in net.order;
      var i :| 0 <= i < |net.order| && net.order[i] == f;
      var j :| 0 <= j < |net.order| && net.order[j] == g;
      if j < i {
        assert ProperAt(net.order, net.adj, map[], res, i);
        assert g in net.order[..i];
      } else {
        assert ProperAt(net.order, net.adj, map[], res, j);
        assert f in net.order[..j];
      }
    }
  }

  /** A face with at most three neighbour entries is never left without a
      colour, so ZeroDivisionError cannot arise. */
  lemma GreedyNoZeroDivision(order: seq<nat>, adj: map<nat, seq<nat>>, c: nat, colours: map<nat, nat>)
    requires forall f :: f in order ==> f in adj && |adj[f]| <= 3
    ensures Greedy(order, adj, c, colours) != Err(ZeroDivisionError)
    decreases |order|
  {
    if |order| > 0 {
      var s := Strike(Four, adj[order[0]], colours);
      if s.Some? {
        StrikeLeaves(Four, adj[order[0]], colours, s.value);
        GreedyNoZeroDivision(order[1..], adj, c + 1, colours[order[0] := s.value[c % |s.value|]]);
      }
    }
  }

  /** `gen_face_data`: the network and the polygons when faces are asked
      for, and the colouring on top of them when colours are asked for as
      well.  Colours without faces only log a warning. */
  method GenFaceData(mesh: Mesh, faces: bool, colours: bool, fuel: nat) returns (r: Result<FaceData>, ghost visit: map<nat, (nat, nat)>)
    requires mesh.Valid()
    ensures !faces ==> r == Ok(FaceData(None, None, None))
    ensures r.Err? ==> faces
    ensures (r.Err? && r.error == IndexError) <==> faces && |mesh.edges| == 0
    ensures FacesAgree(mesh.edges) ==> !(r.Err? && r.error == KeyError)
    ensures r.Ok? ==> (r.value.network.Some? <==> faces) && (r.value.polys.Some? <==> faces)
    ensures r.Ok? ==> (r.value.colours.Some? <==> faces && colours)
    ensures r.Ok? && faces ==> Keyed(r.value.network.value) && mesh.edges[0].face in r.value.polys.value
    ensures r.Ok? && faces ==> forall f :: f in r.value.polys.value ==>
      f in visit && Traced(mesh.edges, f, visit[f].0, visit[f].1, r.value.polys.value[f])
    ensures r.Ok? && faces && FacesAgree(mesh.edges) ==>
      && r.value.network.value.adj.Keys == r.value.polys.value.Keys
      && forall f {:trigger f in r.value.network.value.adj} :: f in r.value.network.value.adj ==>
           f in visit && Bordered(mesh.edges, visit[f].0, visit[f].1, r.value.network.value.adj[f])
    ensures r.Ok? && faces && FacesAgree(mesh.edges) && mesh.edges[0].twin.None? && TwinsPaired(mesh.edges) ==>
      forall f, g {:trigger g in r.value.network.value.adj[f]} ::
        f in r.value.network.value.adj && g in r.value.network.value.adj[f] ==> g in r.value.polys.value
    ensures r.Ok? && r.value.colours.Some? ==>
      Keyed(r.value.network.value) &&
      Greedy(r.value.network.value.order, r.value.network.value.adj, 0, map[]) == Ok(r.value.colours.value)
  {
    visit := map[];
    if !faces {
      return Ok(FaceData(None, None, None)), visit;
    }
    var walked;
    walked, visit := WalkFaces(mesh, fuel);
    if walked.Err? {
      return Err(walked.error), visit;
    }
    var (net, polys) := walked.value;
    if !colours {
      return Ok(FaceData(Some(net), Some(polys), None)), visit;
    }
    var painted := Colour(net);
    if painted.Err? {
      return Err(painted.error), visit;
    }
    r := Ok(FaceData(Some(net), Some(polys), Some(painted.value)));
  }
}
