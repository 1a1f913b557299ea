# Polygon triangulation of virtual-world, in Dafny

This project models the triangulation engine of the `virtual-world`
repository (`virtual-world/tri.py`) and the orientation predicate of
`virtual-world/main.py`, and proves properties of the model.

- **Geometry** (`geometry.dfy`): the signed-area test `_sld`, the sweep order
  `_vxh` and the vertex classification `_vertex_type`.
  - Coordinates are exact reals.
  - The lemmas cover `_sld`'s sign, symmetries and collinearity, and its
    docstring and `__main__` examples. They also show that `_vxh` is a
    strict total order, and spell out the five vertex kinds.
- **DCEL** (`dcel.dfy`): the half-edge mesh.
  - `Vertex` (`__getitem__`, `prev`, `next`, `help`, `tuples_to_vertices`)
    and `ConnEdge` are records.
  - `DCEL` is the class `Mesh`, with the arena fields `verts`, `edges` and
    `faces`. Object references become arena positions.
  - The constructor builds the ring.
  - `insert` is split into its pair search, its relinking and its
    relabelling loop. It is proved to keep the mesh invariant (`next`/`prev`
    inverse, twins paired, indices in range) and to leave exactly the
    spliced links and the relabelled cycle.
  - `new_face` is a counter.
- **Walks** (`walk.dfy`): iterating `next`, and the bound that the walk
  around a face returns within as many steps as there are half-edges.
- **Sweep** (`sweep.dfy`):
  - the insertion-sort priority queue `_q`, proved ordered and a permutation;
  - the left-edge search, which keeps the smallest intercept, as written;
  - the five `_handle_*` methods of `TriangleSweep` and the dispatcher
    `_handle`, as methods of a class that holds `T` and `queueD` over a
    shared `Mesh`.
- **Monotone pieces** (`monotone.dfy`): `_chain`, and
  `monotone_triangulation` with its stack loop over the priority queue.
  As written, the routine hands integer indices to `_q`, which is modelled
  on Python values so that `_vxh` on an integer raises AttributeError.
- **Face data** (`faces.dfy`): `gen_face_data`.
  - The face walk with its `roots`/`Sf` work lists produces the vertex
    cycle of every face reached and the neighbour "network".
  - The greedy colouring picks from the four colours, and a lemma proves
    that it is proper towards neighbours coloured earlier.

Python exceptions become `Err` values of a `Result` with the exception's
name (`IndexError`, `ValueError`, `AttributeError`, `ZeroDivisionError`,
`KeyError`). One more outcome, `OutOfFuel`, is not a Python exception: it
marks the face walk that the model bounds (see "Left out"). `list.remove` is `Wrappers.Remove`.

## Model

| member | source | states |
|---|---|---|
| Wrappers.Remove | virtual-world/tri.py:334 | `list.remove` fails exactly when the value is absent; otherwise the first occurrence is dropped, one element shorter, multiset minus one copy, the other elements in order |
| Geometry.Sld | virtual-world/tri.py:7-34 | `_sld(a, b, p)`, though written from `b`, equals the cross product of `a→b` and `a→p`, an independent orientation formula |
| Geometry.SldSymmetries | virtual-world/tri.py:7-34 | reversing the line negates `_sld`; rotating the three points keeps it; swapping `b` and `p` negates it |
| Geometry.SldCollinear | virtual-world/main.py:33 | every point on the line through `a` and `b` has `_sld` zero |
| Geometry.SldLeftOfRightward | virtual-world/main.py:8-20 | for a line pointing in +x, `_sld` is positive exactly above it and negative exactly below it (left/right of the arrow) |
| Geometry.SldDemo | virtual-world/main.py:50-51 | the two demo calls give +0.5 and -0.5 |
| Geometry.SldUnitSquare | virtual-world/main.py:22-30 | the centre of the unit square is +0.5 left of each edge taken anticlockwise |
| Geometry.Higher | virtual-world/tri.py:260-268 | `_vxh(p, q)` never holds when `p` is lower, always holds when `p` is strictly higher, and never holds of a point and itself |
| Geometry.HigherIsStrictTotalOrder | virtual-world/tri.py:260-268 | `_vxh` is irreflexive, asymmetric, transitive and total on distinct points |
| Geometry.NotHigherIsTotalPreorder | virtual-world/tri.py:260-268 | "not higher" is total and transitive, the order the priority queue sorts by |
| Geometry.VertexType | virtual-world/tri.py:299-313 | start or split exactly when the vertex is above both ring neighbours, end or merge exactly when it is above neither |
| Geometry.VertexTypeCases | virtual-world/tri.py:299-313 | start / split when above both neighbours (split iff `prev.x < next.x`), end / merge when above neither (merge iff `prev.x > next.x`), regular iff above exactly one |
| Geometry.StartNeedNotBeConvex | virtual-world/tri.py:299-313 | the x test is not a turn test: a reflex top vertex is classified start |
| Geometry.StarKinds | virtual-world/tri.py:606-609 | the kinds of the eight vertices of the `__main__` star: one split, one merge, two start, two end, two regular |
| Dcel.Vertex.Get | virtual-world/tri.py:235-241 | `__getitem__` gives x for 0, y for 1 and raises IndexError for any other index |
| Dcel.SldThroughGet | virtual-world/tri.py:34 | `_sld` on vertices through `__getitem__` is the signed area of their positions |
| Dcel.TuplesToVertices | virtual-world/tri.py:197-201 | one vertex without an edge per pair, in order |
| Dcel.Mesh.constructor | virtual-world/tri.py:77-89 | `n` half-edges in a ring, `next = (i+1) % n`, `prev = (i-1) % n`, all on face 0, `faces == 1`, each vertex's `e` its own half-edge when asked; the mesh invariant holds and face labels are constant along `next` |
| Dcel.Mesh.PrevOf | virtual-world/tri.py:217-221 | `prev()` is the origin of the half-edge before the vertex's own, whose `next` is that edge; None exactly when the vertex has no edge |
| Dcel.Mesh.NextOf | virtual-world/tri.py:223-227 | `next()` is the origin of the half-edge after the vertex's own; None exactly when the vertex has no edge |
| Dcel.Mesh.HelpOf | virtual-world/tri.py:229-233 | `help()` is the helper of the vertex's own half-edge; None when there is no edge or no helper |
| Dcel.Mesh.RingNeighbours | virtual-world/tri.py:77-89 | on the constructor's ring, vertex `v`'s `prev()` is `v-1` and `next()` is `v+1`, cyclically |
| Dcel.RingSteps | virtual-world/tri.py:84-85 | on a ring, `(i+1) % n` and `(i-1) % n` undo each other |
| Dcel.Mesh.SetHelper | virtual-world/tri.py:383 | `edge.helper = v` changes that one field and keeps the mesh invariant |
| Dcel.HelperKeepsMeshOk | virtual-world/tri.py:326 | setting a helper to a mesh vertex keeps the mesh invariant |
| Dcel.Mesh.NewFace | virtual-world/tri.py:134-136 | returns the old face count and increments it |
| Dcel.Collect | virtual-world/tri.py:92-98 | starters are exactly the half-edges leaving `src`; enders exactly those leaving `tgt` (and not `src`), in arena order |
| Dcel.ScanEnders | virtual-world/tri.py:106-109 | for one starter, the last ender on its face overwrites the pair; with none, the pair is unchanged |
| Dcel.SelectPair | virtual-world/tri.py:103-111 | no pair iff no starter shares a face with an ender; otherwise the lexicographically last common-face pair |
| Dcel.Mesh.FindPair | virtual-world/tri.py:92-111 | None iff no half-edge from `src` and one from `tgt` share a face; otherwise the last such pair |
| Dcel.SplicedInverseAt | virtual-world/tri.py:115-123 | the spliced `next` and `prev` are inverse at every half-edge |
| Dcel.SpliceLinks | virtual-world/tri.py:115-123 | the four relinking statements produce the splice of the twin pair before `t` and `s`; the new pair carry the starter's face and the new face |
| Dcel.SpliceKeepsInverse | virtual-world/tri.py:120-123 | after the splice, `next[prev[e]] == e` and `prev[next[e]] == e` still hold |
| Dcel.SplicePermutes | virtual-world/tri.py:120-123 | after the splice, `next` is still a permutation |
| Dcel.Mesh.Link | virtual-world/tri.py:115-123 | appends the diagonal and its twin (each other's twins) and leaves exactly the splice, with faces unchanged on old edges |
| Dcel.MoveStep | virtual-world/tri.py:127-129 | one iteration of the relabelling loop moves one more half-edge of the walk onto the new face |
| Dcel.Mesh.MoveCycleToFace | virtual-world/tri.py:126-129 | the walk from the new twin returns after `k` steps, and exactly the half-edges strictly inside it move to the new face |
| Walk.WalkBound | virtual-world/tri.py:127-129 | a walk along `next` that has not come back has taken fewer steps than there are half-edges, so the relabelling loop terminates |
| Dcel.MoveRelabels | virtual-world/tri.py:125-129 | the relabelled arena is the linked arena with only faces changed, the twin's cycle on the new face |
| Dcel.SpliceKeepsValid | virtual-world/tri.py:114-132 | splice plus relabelling keeps the mesh invariant with one more face |
| Dcel.InsertCorrect | virtual-world/tri.py:114-132 | a successful insert keeps the mesh invariant and leaves the splice and the relabelled cycle |
| Dcel.Mesh.AddDiagonal | virtual-world/tri.py:113-132 | two more half-edges, each other's twin, one more face, mesh invariant kept, only the twin's cycle relabelled |
| Dcel.OnCycleNext | virtual-world/tri.py:127-129 | the successor of a half-edge on the relabelled cycle is on it |
| Dcel.OnCyclePrev | virtual-world/tri.py:127-129 | the predecessor of a half-edge on the relabelled cycle is on it, since `next` is a permutation |
| Dcel.DiagonalKeepsFacesAgree | virtual-world/tri.py:113-132 | if face labels were constant along `next` before the diagonal, they still are after it: the relabelled cycle is all new face, the rest keeps the starter's face |
| Dcel.Mesh.Insert | virtual-world/tri.py:91-132 | ValueError, with nothing changed, iff no starter/ender pair shares a face; otherwise the last pair is used and the mesh gains the diagonal as above; face labels constant along `next` stay so |
| Sweep.InsertKeepsOrder | virtual-world/tri.py:289-292 | inserting in front of the first entry not lower keeps the queue ordered |
| Sweep.InsertionPoint | virtual-world/tri.py:288-294 | the inner loop finds the first entry the vertex is not higher than, or the end |
| Sweep.Enqueue | virtual-world/tri.py:284-295 | one round of `_q` adds the vertex once and keeps the queue ordered |
| Sweep.PriorityQueue | virtual-world/tri.py:270-297 | `_q` returns a permutation of its input with no entry higher than a later one, so `pop()` yields highest first |
| Sweep.Straddles | virtual-world/tri.py:342-343 | the straddle test holds exactly when the vertex's height lies between the edge's end heights |
| Sweep.XAt | virtual-world/tri.py:344-345 | on a straddling edge the intercept lies between the edge's end x-coordinates |
| Sweep.XAtOnLine | virtual-world/tri.py:344-345 | the computed intercept lies on the edge's line (`_sld` zero) |
| Sweep.TriangleSweep.LeftEdgeUnique | virtual-world/tri.py:346-349 | the entry the search keeps is unique |
| Sweep.TriangleSweep.LeftEdge | virtual-world/tri.py:338-349 | ZeroDivisionError iff a `T` edge straddling the vertex's height is flat; None iff no edge crosses strictly left; otherwise the first edge with the smallest intercept left of the vertex |
| Sweep.TriangleSweep.constructor | virtual-world/tri.py:536-538 | the sweep starts with empty `T` and `queueD` |
| Sweep.TriangleSweep.HandleStart | virtual-world/tri.py:323-326 | appends `v` to `T` and sets `v`'s own edge's helper to `v`; nothing else changes |
| Sweep.TriangleSweep.HandleEnd | virtual-world/tri.py:328-334 | queues `(v, prev.help())` iff `v`'s predecessor is a merge vertex; ValueError iff the predecessor is not in `T`, otherwise it is removed |
| Sweep.TriangleSweep.HandleSplit | virtual-world/tri.py:336-356 | queues `(v, left edge's helper)`, appends `v` to `T`, sets only `v`'s own helper (the misspelt field leaves the left edge's helper); AttributeError when no left edge |
| Sweep.TriangleSweep.RetirePrev | virtual-world/tri.py:359-364 | AttributeError when the predecessor has no helper; queues the diagonal iff that helper is a merge vertex; removes the predecessor from `T` or raises ValueError |
| Sweep.TriangleSweep.HelpLeftEdge | virtual-world/tri.py:366-383 | finds the left edge, queues `(v, helper)` iff its helper is a merge vertex, makes `v` its helper |
| Sweep.TriangleSweep.HandleMerge | virtual-world/tri.py:358-383 | AttributeError without a predecessor helper, ValueError when the predecessor is not in `T`; once it is removed, ZeroDivisionError iff a remaining edge straddling `v` is flat, AttributeError iff none lies left; on success `T` loses the predecessor, `queueD` gains up to two diagonals, the left edge's helper becomes `v` |
| Sweep.TriangleSweep.RetireAndInsert | virtual-world/tri.py:387-396 | AttributeError without a predecessor helper; otherwise ValueError iff the predecessor is not in `T`; on success the predecessor is retired and `v` appended to `T` as its own helper |
| Sweep.TriangleSweep.HelpLeftOrigin | virtual-world/tri.py:399-416 | finds the left edge, queues `(v, helper)` iff the edge's origin is a merge vertex, makes `v` its helper |
| Sweep.TriangleSweep.HandleRegular | virtual-world/tri.py:385-416 | predecessor above `v`: `T` becomes `T` minus the predecessor plus `v`; otherwise `T` is unchanged and the left edge is the one the search keeps |
| Sweep.TriangleSweep.Handle | virtual-world/tri.py:315-321 | dispatch on the kind: start appends `v`; end succeeds iff the predecessor is in `T`; end and merge remove it |
| Monotone.Chain | virtual-world/tri.py:446-454 | the chain is +1 or -1, +1 iff the vertex before it in the list is higher |
| Monotone.ChainOnRing | virtual-world/tri.py:446-454 | on the constructor's ring, `_chain` is +1 exactly when `Vertex.prev()`, found through the mesh, is higher |
| Monotone.ChainIgnoresPiece | virtual-world/tri.py:446-454 | `_chain` ignores its piece: in the star's piece `[5, 6, 7, 0, 1]`, vertex 5 follows the lower vertex 1, yet `_chain` puts it on the left chain |
| Monotone.Triangle | virtual-world/tri.py:465-471 | the three-vertex piece as one triangle, first vertex kept, same vertices, wound anticlockwise (positive `_sld`) unless collinear |
| Monotone.TriangleAt | virtual-world/tri.py:484-517 | a triangle formed at queue position `j` from two positions above it has its first corner lowest |
| Monotone.VxhValue | virtual-world/tri.py:260-268 | `_vxh` raises AttributeError iff either argument is an integer; on two vertices it is the order `Higher` |
| Monotone.InsertKeepsValueOrder | virtual-world/tri.py:289-292 | inserting a vertex in front of the first entry it is not higher than keeps the values ordered |
| Monotone.ScanValues | virtual-world/tri.py:288-294 | the inner loop raises AttributeError iff the value or the bottom entry is an integer; otherwise it finds, as `q.index(entry)` does, the first entry the vertex is not higher than |
| Monotone.EnqueueValue | virtual-world/tri.py:284-295 | one round of `_q` on Python values: the first value queued as is; later ones raise AttributeError iff an integer is compared, otherwise are added once, keeping the order |
| Monotone.QueueValues | virtual-world/tri.py:270-297 | `_q` on Python values raises AttributeError iff there are two or more values and one is an integer; one value or none is returned as given; otherwise a permutation ordered lowest first |
| Monotone.TriangulateAsWritten | virtual-world/tri.py:456-478 | as written: IndexError below three vertices, one triangle for three, and AttributeError from `_q` for every piece of four or more |
| Monotone.MonotoneTriangulation | virtual-world/tri.py:456-527 | IndexError iff fewer than 3 vertices; 3 give one anticlockwise triangle; larger pieces give triangles of the piece's vertices, each closed at its lowest corner |
| Faces.SetKey | virtual-world/tri.py:161 | dict assignment: a new key goes last in key order, an existing one keeps its place; key order stays duplicate-free |
| Faces.WalkStaysOnFace | virtual-world/tri.py:163-170 | with face labels constant along `next`, the walk never leaves its face |
| Faces.RingIsOneFace | virtual-world/tri.py:77-89 | the constructor's ring is one face: the walk from half-edge 0 returns after `n` steps, passing vertices `0..n-1` in order |
| Faces.RingOrigins | virtual-world/tri.py:160-169 | on the ring, the origins along the walk are the vertices in order |
| Faces.AppendAcross | virtual-world/tri.py:164-165 | `network[e.face] += [e.twin.face]`; KeyError iff the face is no key |
| Faces.CrossEdge | virtual-world/tri.py:164-168 | as above, and the twin is pushed with its face onto `Sf` iff its face is not in `Sf` |
| Faces.CycleStep | virtual-world/tri.py:164-170 | one step of the inner walk keeps the cycle, origins and network entry in step with the walk |
| Faces.WalkCycle | virtual-world/tri.py:159-170 | the inner loop returns to `e0` after the cycle's length; the origins are the cycle's; the network entry lists the faces across the cycle's twins |
| Faces.TraceCycle | virtual-world/tri.py:158-172 | one face: its cycle, its network entry (keyed at 161, completed at 171-172), KeyError only when labels disagree, other entries untouched |
| Faces.TracedAfter | virtual-world/tri.py:173 | recording a face's cycle keeps every recorded cycle the true cycle of its face |
| Faces.BorderedAfter | virtual-world/tri.py:171-173 | with agreeing labels, network keys equal polygon keys and every entry lists the faces across its cycle |
| Faces.ParentedAfter | virtual-world/tri.py:166-168 | every waiting root was pushed from a face already traced |
| Faces.ClosedAfter | virtual-world/tri.py:166-174 | every listed neighbour is traced or still waiting in `Sf` |
| Faces.RemoveCancels | virtual-world/tri.py:174 | removing the face just walked leaves `Sf` holding the faces of the waiting roots |
| Faces.WalkStart | virtual-world/tri.py:154-155 | the work lists start from half-edge 0 and its face |
| Faces.PopRoot | virtual-world/tri.py:158 | popping a root keeps the walk's bookkeeping |
| Faces.WalkDone | virtual-world/tri.py:157 | with no roots left, `Sf` is empty, the first face is traced and every neighbour listed is traced |
| Faces.WalkFace | virtual-world/tri.py:157-174 | one outer iteration keeps the walk's invariant, or raises KeyError only when labels disagree |
| Faces.WalkFaces | virtual-world/tri.py:151-175 | IndexError iff there are no edges; KeyError only when labels disagree; every polygon entry is its face's full vertex cycle; with agreeing labels the network is keyed like the polygons, each entry lists the faces across that cycle, and, when twins pair and half-edge 0 has none, every neighbour listed has a polygon |
| Faces.Greedy | virtual-world/tri.py:182-190 | the colouring fails only with ValueError (a colour removed twice) or ZeroDivisionError (no colour left) |
| Faces.Colour | virtual-world/tri.py:181-190 | the two loops compute `Greedy` over the network's key order |
| Faces.RemoveDistinct | virtual-world/tri.py:188 | removing a colour from a repeat-free list drops it for good |
| Faces.Strike | virtual-world/tri.py:186-188 | the colours left after striking the neighbours' colours are a sub-multiset of the available ones |
| Faces.StrikeUncoloured | virtual-world/tri.py:186-188 | with no neighbour coloured yet nothing is struck; `remove` raises ValueError only when some neighbour is coloured |
| Faces.StrikeExcludes | virtual-world/tri.py:186-188 | the remaining colours are repeat-free, drawn from the four, and exclude every coloured neighbour's colour |
| Faces.StrikeLeaves | virtual-world/tri.py:186-188 | each neighbour removes at most one colour |
| Faces.GreedyHead | virtual-world/tri.py:184-189 | the first face gets one of the four colours, none of its coloured neighbours' |
| Faces.GreedyStep | virtual-world/tri.py:183-190 | after the first face is coloured, the rest of the order is coloured the same way from the extended colouring |
| Faces.GreedyKeeps | virtual-world/tri.py:181-190 | every face in the order gets a colour in {0,1,2,3}; colours given beforehand are kept |
| Faces.GreedyProper | virtual-world/tri.py:181-190 | every face gets a colour in {0,1,2,3} that differs from each neighbour coloured before it; earlier colours are kept |
| Faces.ColouringProper | virtual-world/tri.py:181-190 | with symmetric neighbour lists, any two distinct neighbouring faces get different colours |
| Faces.GreedyNoZeroDivision | virtual-world/tri.py:189 | faces with at most three neighbour entries never run out of colours |
| Faces.GenFaceData | virtual-world/tri.py:147-191 | no faces asked: empty result; otherwise IndexError iff there are no edges, KeyError only when labels disagree; the polygons are the faces' full vertex cycles, including half-edge 0's face; with agreeing labels the network is keyed like the polygons with the faces across each cycle, and, when twins pair and half-edge 0 has none, every listed neighbour has a polygon; colours (when also asked) are the greedy colouring of the network |

## Left out

- `TriangleSweep.sweep`, `triangulate` and `_recursive_untangle`
  (tri.py:250-252, 418-444, 529-575) are not modelled. `sweep` queues the
  global `vertices` (tri.py:547), which only the `__main__` block binds
  (tri.py:608); the untangling then runs `for ddiag in self.D` (tri.py:427)
  over a `DCEL`, which defines no `__iter__`, so it raises TypeError, and it
  reads `.s`/`.t` fields that no half-edge has. The sweep state's
  constructor models only the initial empty `T` and `queueD` of lines 536-538.
- `DCEL._march_face_data` (tri.py:138-144) is not modelled. Its first
  statement, `self._Sf += ...` (tri.py:139), raises AttributeError because
  `__init__` (tri.py:77-89) never sets `_Sf`; past that it calls a missing
  `Sf.contains` and never advances `e`.
- `Vertex.vertices_to_tuples` (tri.py:203-210) is not modelled. It appends
  to its own input while iterating over it, so on any non-empty input the
  loop reaches the first appended tuple and `v.x` raises AttributeError; on
  an empty input it returns an empty list.
- Holes, logging, debug output, `print`, `vis.py`, `logg.py`, and main.py's
  `main()` and `Room` are not modelled: they are I/O only.
- `Monotone.MonotoneTriangulation` does not model `D`, nor the NameError
  that building it raises. tri.py neither defines nor imports `Edge`
  (line 3 imports only `itemgetter`; lines 4-5 bind the modules `logg` and
  `vis`), so each `D += [Edge(...)]` (tri.py:488, 513, 523) raises
  NameError. Even with the queue corrected, a piece of four or more
  vertices whose step takes the other-chain branch raises NameError at
  line 488, where the model returns `Ok` with the triangles. The final
  loop at 522-523 only feeds `D`.
- `Monotone.MonotoneTriangulation` states that every triangle has its
  vertices in the piece and its first corner lowest. It does not state
  that the triangles tile the piece: the source's loops do not achieve
  that. The fan at 522-523 goes to `D` only. And in the same-chain branch
  the first inner iteration sets `l = k; k = S[-1]` before `S.pop()`
  (tri.py:509-512), so `k` and `l` name the same stack entry: it records
  the degenerate triangle `[q[-j-1], q[-k-1], q[-k-1]]` and never the
  triangle of `j` with the two entries on top of the stack. The model
  keeps both as written.
- `Faces.WalkFaces` does not claim that the walk terminates. `Sf.remove`
  (tri.py:174) lets a finished face be queued again, and the source gives
  no bound, so the model runs on `fuel` and ends with `OutOfFuel` when it
  is spent.
- `Faces.WalkFaces` states its network claims only when face labels are
  constant along `next`. Otherwise a face label missing from the network
  can raise KeyError, and entries can mix faces.
- `Faces.ColouringProper` needs symmetric neighbour lists, which the model
  does not prove of the network `WalkFaces` builds: that would need every
  face label to name a single cycle. Unconditionally, `Faces.GreedyProper`
  states only that each face's colour differs from those of its
  neighbours coloured before it.
- Meshes built by the constructor and `insert` keep face labels constant
  along `next` (`Dcel.Mesh.constructor`, `Dcel.Mesh.Insert`), so the
  conditional claims of `Faces.WalkFaces` and `Faces.GenFaceData` apply to
  them.
- `Monotone.Chain` follows the source: it looks at the polygon's list
  order and not at the piece (`Monotone.ChainIgnoresPiece`). No corrected
  chain is modelled: `Monotone.MonotoneTriangulation` uses `_chain` as
  written.
- `Faces.GenFaceData` takes two booleans instead of the list `q`. The
  warning logged for colours without faces is not modelled.
- `Sweep.TriangleSweep.HandleRegular` and `Sweep.TriangleSweep.Handle`
  state `T` and the left-edge choice only. The queued diagonals and helper
  updates of each branch are stated by `RetireAndInsert`,
  `HelpLeftOrigin`, `HandleStart`, `HandleEnd`, `HandleSplit` and
  `HandleMerge`.
- `Sweep.TriangleSweep.HandleMerge` and `Sweep.TriangleSweep.HandleRegular`
  do not state the partially updated state left when an exception is
  raised midway. The source leaves the same partial updates.
- `Dcel.Mesh.constructor` requires that vertices handed in without
  `updateVertices` have no edge yet. An edge of another mesh has no
  meaning in the arena.
- Python's `is` tests on vertices and half-edges become equality of arena
  positions. `getattr` dispatch in `_handle` becomes a `match` on the kind.
- Coordinates are exact reals. Floating-point rounding in `_sld` and in
  the intercept division is not modelled, and `float('inf')` becomes
  `None`.

## Findings

| source | as written | input that shows it | evidently intended | confidence | as-written member | corrected member |
|---|---|---|---|---|---|---|
| virtual-world/tri.py:478 | `monotone_triangulation` passes the piece's integer indices to `_q`, whose comparison `_vxh` reads `.y`, so every piece of four or more vertices raises AttributeError | any piece of four or more vertices, such as the eight-vertex star of `__main__` as one piece `[0, 1, 2, 3, 4, 5, 6, 7]` | queue the piece by the positions of its vertices, `self.vertices[i]` | not executed | Monotone.TriangulateAsWritten | Monotone.MonotoneTriangulation |
