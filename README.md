# Run-time convex hull of bounce: a verified Dafny model

This project models the part of the bounce physics engine that turns a point
cloud into the compact convex hull that collision detection uses. It covers
two pieces:

- `b3QHull::Set` (with its helper table `b3PIMap`). It welds near-coincident
  input points. It then hands the survivors to the quickhull builder. Finally
  it compacts the builder's pointer-based half-edge mesh into small index
  arrays: vertices, half-edges (emitted in twin pairs 2k, 2k+1, each with
  origin, twin, face and next), faces (one half-edge each) and planes.
- The inline primitives of the quickhull builder `qhHull`:
  - the intrusive doubly-linked list `qhList`;
  - the loop walks of `qhFace`;
  - the arena sizing `qhGetBufferSize`;
  - the three free-lists threaded through each element's `freeNext`;
  - the hull-wide half-edge search `qhHull::FindTwin`.

Pointers become natural-number indices into pools. A nullable pointer
becomes `Link = Null | Ptr(index)`. The builder's mesh is the value `Mesh`.
Its face loops are ghost witnesses. An object the source updates in place
(`qhList`, `qhHull`, `b3PIMap`, `b3QHull`) is a class. Its `modifies`
clauses name what each method changes.

Modules, one concept each:

- `HalfEdgeMesh` (mesh.dfy): the mesh value, `next`-walks (`Follow`) and face
  loops.
- `QhFace` (mesh.dfy): the three do-while walks of `qhFace`.
- `IntrusiveList` (list.dfy): `qhList` over a node pool, with a ghost
  `Contents` sequence that the `prev`/`next` fields link in order.
- `Quickhull` (quickhull.dfy): the arena size, and the class `QhHull` with
  its free-lists, each tied to a ghost stack.
- `PointerIndexMap` (pimap.dfy): `b3PIMap`.
- `PointDedup` (dedup.dfy): the welding pass, specified by the function
  `Dedup`.
- `RuntimeHull` (hull.dfy): `b3QHull` and `Set`.

The proof of `Set` follows the compaction with two ghost sequences:

- `V[k]` is the construction vertex copied into run-time vertex slot `k`.
- `E[k]` is the construction half-edge that run-time half-edge `k` stands
  for.

The main result is `Converted`. When `Set` builds the hull (outcome `Built`),
the following hold:

- Every construction half-edge has exactly one run-time slot.
- Every origin, twin, face, `next` and face edge is carried across.
- Twins sit in slots 2k, 2k+1.
- Each run-time face's half-edges form a `next` cycle as long as its
  construction loop (`FaceCycle`).

A compaction fails exactly when the mesh `Overflows` the arrays. That means it
has more distinct tail vertices (`Tails`) than vertex slots, or at least as many
half-edges as edge slots. The edge test `edgeCount + 2 >= capacity` always
keeps one slot spare, so a mesh whose half-edges would fill the array exactly
is refused.

## Model

| member | source | states |
|---|---|---|
| PointerIndexMap.PIMap.constructor | src/bounce/collision/shapes/qhull.cpp:35-38 | a new map holds no entries |
| PointerIndexMap.PIMap.Add | src/bounce/collision/shapes/qhull.cpp:40-44 | needs room (the assert); the entry lands at position `count`, nothing else in the buffer changes, and the count grows by one |
| PointerIndexMap.PIMap.Find | src/bounce/collision/shapes/qhull.cpp:46-57 | returns the position of the first entry below `count` with the given pointer; null exactly when no such entry exists |
| PointDedup.CopyUnique | src/bounce/collision/shapes/qhull.cpp:144-167 | the nested loop leaves in `ps[..psCount]` exactly `Dedup` of the first `n` points, with `psCount <= n` |
| PointDedup.DedupLength | src/bounce/collision/shapes/qhull.cpp:144-167 | welding never keeps more points than it was given |
| PointDedup.DedupSeparated | src/bounce/collision/shapes/qhull.cpp:151-161 | no kept point is close to a point kept before it |
| PointDedup.DedupIsSubsequence | src/bounce/collision/shapes/qhull.cpp:147-167 | the kept points are input points in input order (a subsequence) |
| PointDedup.DedupCovers | src/bounce/collision/shapes/qhull.cpp:151-166 | every input point is kept or is close to some kept point |
| PointDedup.SeparatedIsFixed | src/bounce/collision/shapes/qhull.cpp:147-167 | a sequence with no point close to an earlier one passes through unchanged |
| PointDedup.DedupIdempotent | src/bounce/collision/shapes/qhull.cpp:147-167 | welding the welded points changes nothing |
| PointDedup.DedupSkips | src/bounce/collision/shapes/qhull.cpp:151-161 | a point close to one already kept is dropped: the result is as before |
| PointDedup.DedupAbsorbs | src/bounce/collision/shapes/qhull.cpp:147-167 | appending points that already occur in the input changes nothing, as each is close to a kept point |
| RuntimeHull.Hull.Set | src/bounce/collision/shapes/qhull.cpp:137-340 | welds the points; with fewer than 4 left, or with more faces than fit, returns leaving the hull untouched; otherwise the outcome is an overflow exactly when the builder's mesh `Overflows` the arrays (more distinct tail vertices than vertex slots, or at least as many half-edges as edge slots), with all counts zero, and is built exactly when it does not, with the hull `Converted` from the mesh |
| RuntimeHull.Hull.Compact | src/bounce/collision/shapes/qhull.cpp:193-340 | the compaction succeeds exactly when the mesh does not `Overflow` the arrays; success leaves the hull `Converted`, failure leaves all counts zero |
| RuntimeHull.Hull.Convert | src/bounce/collision/shapes/qhull.cpp:193-340 | resets the counts and walks every listed face; either all faces are walked (the full compaction state holds) or all counts are zero and the mesh `Overflows` the arrays |
| RuntimeHull.Hull.ConvertFace | src/bounce/collision/shapes/qhull.cpp:205-339 | one iteration of the face loop: the compaction state advances from `a` faces to `a + 1`, or the counts are zero and the mesh `Overflows` the arrays |
| RuntimeHull.Hull.WalkFace | src/bounce/collision/shapes/qhull.cpp:208-316 | the do-while over the face's loop visits each of its half-edges once, in loop order, ending back at the face edge; `fhs` then holds their run-time slots in order; it stops early only when the mesh `Overflows` the arrays, with the counts zero |
| RuntimeHull.Hull.VisitEdge | src/bounce/collision/shapes/qhull.cpp:211-315 | maps both end vertices and places the half-edge, advancing the walk one position; the new vertex and half-edge sequences are exactly `VisitStep` of the old ones (the tail, then the twin's tail, appended when new; the half-edge and its twin appended as a pair when new); failure (counts zeroed) happens only when the mesh `Overflows` the arrays |
| RuntimeHull.Hull.MapEnds | src/bounce/collision/shapes/qhull.cpp:211-267 | maps the half-edge's tail and its twin's tail to slots holding those vertices; the vertex sequence grows by exactly `AddNew` of the tail, then of the twin's tail (each appended only when not yet mapped); failure only when the mesh has more tail vertices than slots |
| RuntimeHull.VisitStepNumbers | src/bounce/collision/shapes/qhull.cpp:211-315 | one step of the walk numbers both end vertices of the half-edge and the half-edge itself, keeps every earlier slot, adds at most two slots of each kind, and never gives a vertex a second slot |
| RuntimeHull.AddNewHolds | src/bounce/collision/shapes/qhull.cpp:216-242 | after a vertex is looked up and, when missing, appended, it has a slot, and no vertex ever holds two slots |
| RuntimeHull.Hull.MapVertex | src/bounce/collision/shapes/qhull.cpp:216-241 | the returned slot maps to the vertex; the vertex sequence is unchanged when the vertex was already mapped and grows by exactly that vertex otherwise, and the vertex map and vertex array stay in step; failure only when the vertex is new, every slot is used, and the mesh has more tail vertices than slots |
| RuntimeHull.Hull.PlaceEdge | src/bounce/collision/shapes/qhull.cpp:269-313 | a half-edge already in the edge map is claimed and the half-edge sequence is unchanged, otherwise a new twin pair is emitted and the sequence grows by exactly the half-edge and its twin; failure (counts zeroed) happens only for an unmapped half-edge whose twin is unmapped too when `edgeCount + 2` reaches the capacity, so the mesh `Overflows` the arrays; the slot is appended to `fhs` (never past its end) |
| RuntimeHull.Hull.ClaimTwin | src/bounce/collision/shapes/qhull.cpp:271-279 | the slot found for the half-edge had the null face before (the assert holds) and now carries the current face |
| RuntimeHull.Hull.EmitPair | src/bounce/collision/shapes/qhull.cpp:292-312 | the half-edge and its twin take slots `edgeCount` and `edgeCount + 1`, both are added to the edge map, and the count grows by two |
| RuntimeHull.Hull.WritePair | src/bounce/collision/shapes/qhull.cpp:300-306 | the first slot gets the current face and origin `iv1`, the second the null face and origin `iv2`, each naming the other as twin |
| RuntimeHull.Hull.CloseFace | src/bounce/collision/shapes/qhull.cpp:318-339 | the face gets its plane and its first half-edge's slot, the face count grows by one, and the face's half-edges are linked, so the compaction state covers `a + 1` faces |
| RuntimeHull.Hull.LinkFace | src/bounce/collision/shapes/qhull.cpp:329-335 | every half-edge of the face gets `next` equal to the slot of its successor in the loop, the last wrapping to the first |
| RuntimeHull.Hull.LinkOne | src/bounce/collision/shapes/qhull.cpp:331-334 | the `i`-th half-edge's `next` becomes the slot of the `(i + 1) mod n`-th |
| RuntimeHull.Hull.Finish | src/bounce/collision/shapes/qhull.cpp:205-340 | once every face is walked, the run-time arrays are the compacted copy of the mesh (`Converted`): each vertex slot holds a distinct tail vertex, each half-edge one construction half-edge, with all links carried across |
| RuntimeHull.Hull.ConvertedCounts | src/bounce/collision/shapes/qhull.cpp:211-313 | a converted hull has exactly one run-time half-edge per construction half-edge and exactly one vertex per distinct tail vertex, and every run-time vertex is the origin of some run-time half-edge |
| RuntimeHull.Hull.TailsMapped | src/bounce/collision/shapes/qhull.cpp:213-266 | in a converted hull every tail vertex of the mesh has a vertex slot |
| RuntimeHull.Hull.EveryVertexUsed | src/bounce/collision/shapes/qhull.cpp:213-266 | in a converted hull every vertex slot is the origin of some run-time half-edge |
| RuntimeHull.Hull.FaceCycle | src/bounce/collision/shapes/qhull.cpp:326-335 | from each face's edge, run-time `next` returns after exactly its loop's length, not before, and every half-edge passed carries that face |
| RuntimeHull.AddVertex | src/bounce/collision/shapes/qhull.cpp:236-241 | a new vertex in the next free slot keeps the vertex map and the vertex array in step |
| RuntimeHull.VertexOverflow | src/bounce/collision/shapes/qhull.cpp:228-234 | when a new tail vertex finds every slot used, the mesh has more distinct tail vertices than slots |
| RuntimeHull.UnmappedTwin | src/bounce/collision/shapes/qhull.cpp:269-313 | while the edge map pairs twins, the twin of an unmapped half-edge is unmapped too |
| RuntimeHull.EdgeOverflow | src/bounce/collision/shapes/qhull.cpp:284-290 | an unmapped half-edge means at least two half-edges still lack a slot, so `edgeCount + 2` never exceeds the mesh's half-edge count |
| RuntimeHull.ClaimTwinRecords | src/bounce/collision/shapes/qhull.cpp:273-276 | the found slot has no face yet, and setting it advances the half-edge records one position |
| RuntimeHull.EmitPairState | src/bounce/collision/shapes/qhull.cpp:292-309 | adding an unmapped half-edge and its twin keeps the edge map consistent with paired slots |
| RuntimeHull.EmitPairRecords | src/bounce/collision/shapes/qhull.cpp:300-306 | writing the two new records advances the half-edge records one position |
| RuntimeHull.RecordFaceHalfEdge | src/bounce/collision/shapes/qhull.cpp:278-279 | appending the slot to `fhs` stays within its capacity (the asserts hold) and keeps `fhs` the slots of the face's half-edges in order |
| RuntimeHull.RecordFace | src/bounce/collision/shapes/qhull.cpp:320-326 | the face's loop has at least one half-edge, so `fhs` holds a first slot (the assert holds), and recording its plane and first slot extends the face records |
| RuntimeHull.LinkRecords | src/bounce/collision/shapes/qhull.cpp:331-334 | linking one half-edge to its successor extends the set of linked records by one |
| RuntimeHull.NextFace | src/bounce/collision/shapes/qhull.cpp:337-339 | a fully walked and linked face hands over to the next face |
| IntrusiveList.IndexList.PushFront | include/bounce/quickhull/qh_hull.inl:5-16 | the node becomes the head, the list contents are the node followed by the old contents, and exactly the node's and the old head's links change |
| IntrusiveList.IndexList.Remove | include/bounce/quickhull/qh_hull.inl:18-41 | returns the node's old `next`; the contents lose exactly that node, with the rest in order; the neighbours are spliced and the node's links cleared |
| IntrusiveList.PushKeepsOrder | include/bounce/quickhull/qh_hull.inl:8-14 | the push's link updates leave the new contents linked in order |
| IntrusiveList.UnlinkKeepsOrder | include/bounce/quickhull/qh_hull.inl:21-37 | the splice leaves the remaining nodes distinct and linked in order |
| QhFace.GetVertexCount | include/bounce/quickhull/qh_hull.inl:45-55 | the count is the length of the face's loop: `next` returns to the face edge after that many steps and not before |
| QhFace.GetEdgeCount | include/bounce/quickhull/qh_hull.inl:57-67 | the same as the vertex count: the length of the face's loop |
| QhFace.FindTwin | include/bounce/quickhull/qh_hull.inl:69-86 | returns the first half-edge in loop order from `tail` to `head`; null exactly when none of the loop's half-edges runs so |
| HalfEdgeMesh.FollowAlongLoop | include/bounce/quickhull/qh_hull.inl:48-53 | `k` steps of `next` from the face edge reach the loop's `k`-th half-edge, wrapping at the end |
| HalfEdgeMesh.LoopLengthUnique | include/bounce/quickhull/qh_hull.inl:45-67 | a face has one loop length, so both counts are well defined |
| Quickhull.GetBufferSize | include/bounce/quickhull/qh_hull.inl:136-162 | the size is a `u32`: below 2^32 |
| Quickhull.BufferSizeIsLinear | include/bounce/quickhull/qh_hull.inl:136-162 | from two points on, when the true size fits in 32 bits, the result is that size: V vertices, 2·2E half-edges, 2F faces and 2E pointers of each kind, with E = 3V-6, F = 2V-4 |
| Quickhull.UnreducedSize | include/bounce/quickhull/qh_hull.inl:140-159 | from two points on, the sum before reduction is not negative and is linear in V |
| Quickhull.BufferSizeMonotone | include/bounce/quickhull/qh_hull.inl:136-162 | more points never need a smaller arena while the size fits in 32 bits |
| Quickhull.PushThreaded | include/bounce/quickhull/qh_hull.inl:181-185 | pushing a free element keeps the free-list threaded through `freeNext` |
| Quickhull.PopThreaded | include/bounce/quickhull/qh_hull.inl:174-179 | popping the head leaves the rest threaded, starting at the head's `freeNext` |
| Quickhull.QhHull.AllocateVertex | include/bounce/quickhull/qh_hull.inl:174-179 | returns the most recently freed vertex, removes it from the free stack, and changes nothing else |
| Quickhull.QhHull.FreeVertex | include/bounce/quickhull/qh_hull.inl:181-185 | the vertex is pushed on the free stack through its `freeNext`, and nothing else changes |
| Quickhull.QhHull.AllocateEdge | include/bounce/quickhull/qh_hull.inl:187-192 | returns the most recently freed half-edge, removes it from the free stack, and changes nothing else |
| Quickhull.QhHull.FreeEdge | include/bounce/quickhull/qh_hull.inl:194-198 | the half-edge is pushed on the free stack through its `freeNext`, and nothing else changes |
| Quickhull.QhHull.AllocateFace | include/bounce/quickhull/qh_hull.inl:200-205 | returns the most recently freed face, removes it from the free stack, and changes nothing else |
| Quickhull.QhHull.FreeFace | include/bounce/quickhull/qh_hull.inl:207-212 | the face is marked deleted and pushed on the free stack through its `freeNext` |
| Quickhull.QhHull.RecycleFace | include/bounce/quickhull/qh_hull.inl:200-212 | allocation undoes a free: the same face comes back and the free-list is as before, with the face marked deleted |
| Quickhull.QhHull.FindTwin | include/bounce/quickhull/qh_hull.inl:214-227 | scans the live faces from the head of the face list; the result runs from `tail` to `head`, lies on the first face that has such a half-edge, and is the first such half-edge in that face's loop order; null exactly when no live face has one |

## Left out

- `qhHull::Construct` (the quickhull algorithm) is not part of this model. `Set` receives it as the function parameter `construct`. Its result (the mesh and the face list from the head) is required to be closed: every half-edge on exactly one face loop, twins paired, indices in range.
- The tolerance test `b3DistanceSquared(p, q) < kTol * kTol` is floating point. It becomes the parameter `close`.
- `Validate` and the centroid computation `b3ComputeCentroid` at the end of `Set` are left out. The first is a debug check; the second is floating-point mass-property code.
- `qhFace::ComputeCenterAndPlane` and `b3Newell` are floating point. Planes are copied as opaque values.
- The arena buffer `qhBuffer` of `qhGetBufferSize(B3_MAX_HULL_VERTICES)` bytes is left out. The model's builder works on values, not on raw memory.
- The capacities `B3_MAX_HULL_VERTICES`, `B3_MAX_HULL_EDGES` and `B3_MAX_HULL_FACES` are defined in a header that is not part of this model. They become the lengths of the hull's arrays. These are bounded so that every index fits in a byte (`u8`), and every face index stays below the null feature 0xFF, so the `u8` casts never truncate.
- RuntimeHull.Hull.Set: it requires `count <= capacity`, the source's own assert. The clamp `b3Min(count, B3_MAX_HULL_VERTICES)` is modelled but can never bite.
- RuntimeHull.Hull.Set: `Converted` fixes the run-time arrays only up to a renumbering of vertex and half-edge slots. The contracts state each single step of the numbering exactly (`VisitEdge`, `VisitStep`), but not that the slots follow the order in which the whole walk first meets each vertex and half-edge pair. Carrying that whole-walk order through the loops was too costly for the verifier.
- Quickhull.QhHull.AllocateVertex, Quickhull.QhHull.AllocateEdge, Quickhull.QhHull.AllocateFace: they require a non-empty free-list. The source dereferences the free head without a check.
- Quickhull.GetBufferSize: the exact size is stated only while it fits in 32 bits, from two points on. Below that, and above 2^32, the result is the `u32` reduction of the same sum, which is what the source computes.
- The element types' other fields (face centre, conflict lists, vertex conflict faces) are not used by the modelled operations and are left out.
- `SetAsCylinder`, `SetAsCone` and the other shape factories of qhull.cpp are outside the modelled core.
- The `nfh = 0` reset after each face is implicit: each face's walk starts a new local `fhs` count.
- Face-list order: `Set` walks faces in the builder's face-list order, given by the construction. How the builder arrives at that order is not modelled.
- In `Set`, the paths for fewer than four welded points and too many faces return without resetting the counts. The previous hull is left in place rather than emptied. The model follows this code.
