# Subdivider control mesh, topology cache, render indices and diagnostics in Dafny

This project models the core of the Subdivider library: an index-based
half-edge mesh, the topology cache built over it, the render-index builder
of the consumer application, and the diagnostics log with its memory
counters. Vertices, half-edges, edges and faces refer to each other by
position in their arrays, and `0xFFFFFFFF` (`INVALID_INDEX`) stands for
"none".

- `mesh_types.dfy` (`MeshTypes`): the records and their default values,
  the sentinel, and `isValidIndex`.
- `mesh_topology.dfy` (`HalfEdgeTopology`): the mesh state as a value
  (`MeshData`):
  - the directed-edge key `(v0 << 32) | v1`;
  - the link invariants a mesh built by the editing operations keeps
    (`WellFormed`);
  - `getFromVertex`, `findHalfEdge` and `findEdge`.
- `face_insertion.dfy` (`FaceInsertion`), `face_lookup.dfy` (`FaceLookup`):
  - `addFace` as a function: the checks, the creation of the sides with
    twin pairing and edge allocation, and the `next`/`prev` linking;
  - the proof that it keeps every link invariant and that afterwards the
    lookup finds each new side.
- `face_as_written.dfy` (`FaceAsWritten`): `addFace` as `mesh.cpp` writes
  it. It has no forward-key check and rolls back only part of its work.
  On every polygon the corrected checks accept, it builds the same mesh.
- `mesh_queries.dfy` (`MeshQueries`):
  - `getVertexValence` and `isBoundaryVertex`, as loops proved against
    walk functions, with their termination on well-formed meshes;
  - the lookups as written.
- `mesh_validation.dfy` (`MeshValidation`): `validate`, proved equal to a
  predicate that every well-formed mesh satisfies.
- `mesh.dfy` (`ControlMesh`): the `Mesh` class, with these methods:
  - `addVertex`, `addFace` (check loops, side creation and linking) and
    `clear`;
  - `rebuildEdgeMap`, `buildCache` and the lazy `getValence`.

  Each method is proved against the functions above.
- `csr.dfy` (`Csr`): compressed-sparse-row tables:
  - prefix-summed offsets;
  - writes through per-slot cursors that never leave their slot;
  - bounds-checked span reads.
- `cache_walks.dfy` (`CacheWalks`), `cache_spec.dfy` (`CacheSpec`):
  - the face loops and one-ring walks of the cache, which terminate
    through their visited sets;
  - the specification of every array the cache build produces.
- `cache_passes.dfy` (`CachePasses`): the build phases as loops proved
  equal to those specifications.
- `mesh_cache.dfy` (`MeshCache`):
  - the `TopologyCache` class: `build`, `clear`, `isValid` and the
    bounds-checked accessors;
  - lemmas giving the meaning of every query after a build.
- `render_mesh.dfy` (`Rendering`): the `RenderMesh` class. It builds a fan
  triangulation of every face and one line per cached edge.
- `diagnostics.dfy` (`Diagnostics`):
  - `MemoryInfo`, `Result<T>`;
  - the diagnostics `Context` as a plain sequential object.
- `scenarios.dfy` (`MeshScenarios`): small meshes built face by face, and
  the inputs on which the code as written departs from the corrected
  model.

Where `mesh.cpp` and `mesh.hpp` or the repository's tests disagree, the
model follows the declared interface and the tests:

- `mesh.cpp` refers to private members (`vertices_`, `halfEdgeMap_`).
  The model uses the public arrays of `mesh.hpp`, as `mesh_cache.cpp`
  does. Only the names differ.
- `mesh.cpp` never calls `invalidateCache`. The model clears the cache on
  every edit, as `mesh.hpp` and the tests expect. The edits as written,
  which keep a stale cache, are modelled beside them (the last row of
  "## Findings").
- `addFace` does not check that the vertex indices exist. The model does,
  and rejects with the position of the first vertex out of range (see
  "## Left out").

## Model

| member | source | states |
|---|---|---|
| `MeshTypes.InvalidIndexIsMaximum` | subdiv/include/control/mesh_types.hpp:13-21 | the sentinel is 2^32-1, the largest 32-bit index; `isValidIndex(i, n)` holds iff `i < n` for arrays that fit the index type; the sentinel is never valid |
| `MeshTypes.EdgeTag.Code` | subdiv/include/control/mesh_types.hpp:26-31 | SMOOTH is 0, CREASE is 1, every tag is at most 2 |
| `MeshTypes.DefaultVertex` | subdiv/include/control/mesh_types.hpp:40-46 | a default vertex is isolated (no outgoing half-edge), with zero sharpness and no dart flag |
| `MeshTypes.DefaultHalfEdge` | subdiv/include/control/mesh_types.hpp:55-63 | all six links of a default half-edge are unset |
| `MeshTypes.DefaultEdge` | subdiv/include/control/mesh_types.hpp:72-77 | a default edge is SMOOTH with zero sharpness |
| `MeshTypes.DefaultFace` | subdiv/include/control/mesh_types.hpp:85-89 | a default face has no half-edge and valence 0 |
| `HalfEdgeTopology.DirectedKey.Packed` | subdiv/include/control/mesh.hpp:91 | the packed key fits in 64 bits |
| `HalfEdgeTopology.PackedKeyInjective` | subdiv/include/control/mesh.hpp:91 | the packed key decodes: shifted right by 32 it gives `v0`, modulo 2^32 it gives `v1`; two pairs share a packed key iff they are the same pair |
| `HalfEdgeTopology.DirectedEdgeKey` | subdiv/include/control/mesh.hpp:91 | the high 32 bits of the packed key give back `v0` and the low 32 bits `v1`; the two directions of an edge between distinct vertices pack to different keys |
| `HalfEdgeTopology.DirectedEdgeKeyInjective` | subdiv/include/control/mesh.hpp:91 | keys are equal iff both endpoints are; the two directions of an edge between distinct vertices have different keys |
| `HalfEdgeTopology.Pred` | subdiv/src/control/mesh.cpp:122-130 | the predecessor position in a cycle of `n` is in range and its successor is the position itself |
| `HalfEdgeTopology.PredSucc` | subdiv/src/control/mesh.cpp:122-130 | predecessor undoes successor in a cycle of `n` |
| `HalfEdgeTopology.SuccPredModulo` | subdiv/src/control/mesh.cpp:122-130 | successor and predecessor positions are `(i+1) mod n` and `(i-1+n) mod n` |
| `HalfEdgeTopology.MeshData.EndpointsAreVertices` | subdiv/src/control/mesh.cpp:142-152 | when links are in range, the tail `getFromVertex(h)` and the head of every half-edge are vertices |
| `HalfEdgeTopology.MeshData.TwinKey` | subdiv/src/control/mesh.cpp:80-105 | a twin runs the opposite way: its key is the reversed key of its partner |
| `HalfEdgeTopology.MeshData.FindHalfEdge` | subdiv/src/control/mesh.cpp:237-246 | the lookup returns the sentinel or a half-edge running from `v0` to `v1` |
| `HalfEdgeTopology.MeshData.FindHalfEdgeFinds` | subdiv/src/control/mesh.cpp:237-246 | `getFromVertex(findHalfEdge(a, b)) == a`: every half-edge is found from its own tail and head, whether its key is registered or only its twin's is |
| `HalfEdgeTopology.MeshData.FindHalfEdgeMisses` | subdiv/src/control/mesh.cpp:237-246 | on a well-formed mesh the lookup gives the sentinel iff no half-edge runs from `v0` to `v1` |
| `HalfEdgeTopology.MeshData.FindEdge` | subdiv/src/control/mesh.cpp:248-259 | the edge lookup returns the sentinel or an existing edge |
| `HalfEdgeTopology.FindEdgeSymmetric` | subdiv/src/control/mesh.cpp:248-259 | on a well-formed mesh `findEdge(a, b) == findEdge(b, a)` |
| `HalfEdgeTopology.EmptyMesh` | subdiv/src/control/mesh.cpp:404-414 | the cleared mesh is well-formed and empty: every array and the directed-edge map are empty |
| `FaceInsertion.FirstMissingVertex` | subdiv/src/control/mesh.cpp:32-49 | finds the first vertex index out of range, or none iff every index exists |
| `FaceInsertion.FirstRepeatOf` | subdiv/src/control/mesh.cpp:38-49 | finds the first later occurrence of `verts[i]`, or none iff it does not recur |
| `FaceInsertion.FirstDuplicate` | subdiv/src/control/mesh.cpp:38-49 | finds the first pair of equal vertices in the order of the nested loop, or none iff all are distinct |
| `FaceInsertion.FirstSideConflict` | subdiv/src/control/mesh.cpp:80-98 | finds the first side that would be non-manifold, or none iff no side is |
| `FaceInsertion.CheckFaceAccepts` | subdiv/src/control/mesh.cpp:32-49 | the checks accept iff the polygon is insertable; fewer than 3 vertices is reported as too few; a reported missing vertex or duplicate names positions that really are out of range or equal |
| `FaceInsertion.ExistingSideConflicts` | subdiv/src/control/mesh.cpp:80-98 | a side conflicts when the same directed edge already exists, or its reverse exists and is already paired |
| `FaceInsertion.SideConflictMeaning` | subdiv/src/control/mesh.cpp:80-98 | a side conflicts iff the same directed half-edge already exists or the reverse half-edge exists with a twin (a third face on the edge) |
| `FaceInsertion.CreateStep` | subdiv/src/control/mesh.cpp:62-120 | one iteration of the creation loop appends exactly one half-edge and keeps vertices and faces |
| `FaceInsertion.CreatedHalfEdges` | subdiv/src/control/mesh.cpp:62-120 | after `i` iterations exactly `i` half-edges have been appended |
| `FaceInsertion.LinkedShape` | subdiv/src/control/mesh.cpp:122-130 | the link loop sets side `i`'s `next` to `i+1 mod n` and `prev` to `i-1 mod n` and changes nothing else |
| `FaceInsertion.AddFace` | subdiv/src/control/mesh.cpp:20-140 | rejected iff a check fails, with that check's error and the mesh unchanged; accepted adds exactly one face, whose index is the old face count |
| `FaceInsertion.AddFacePreservesWellFormed` | subdiv/src/control/mesh.cpp:20-140 | every accepted face leaves the mesh well-formed: `next.prev == h`, `prev.next == h`, `twin.twin == h`, twins share an edge, faces are closed loops, the map is sound and complete |
| `FaceInsertion.AddFaceLayout` | subdiv/src/control/mesh.cpp:51-139 | an accepted n-gon appends exactly `n` half-edges and the face `(base, n)`; side `i` has `to = verts[(i+1)%n]`, `next = base+(i+1)%n`, `prev = base+(i-1)%n`, the new face, and tail `verts[i]`; older half-edges keep all links but `twin` |
| `FaceInsertion.AddFaceEdges` | subdiv/src/control/mesh.cpp:80-119 | a side whose unpaired reverse exists becomes its mutual twin on the existing edge; any other side is untwinned on a new edge; the edge count grows by the number of such sides |
| `FaceInsertion.AddFaceSideEnds` | subdiv/src/control/mesh.cpp:62-130 | after insertion side `j` runs from `verts[j]` to `verts[j+1 mod n]` |
| `FaceLookup.AddFaceFindsSides` | subdiv/src/control/mesh.cpp:237-246 | after an accepted face, `findHalfEdge` finds every new side from its endpoints |
| `FaceLookup.FindsSideAt` | subdiv/src/control/mesh.cpp:237-246 | the lookup of side `j`'s endpoints returns side `j` |
| `FaceLookup.AddFaceKeepsLookup` | subdiv/src/control/mesh.cpp:237-246 | after an accepted face, the lookup's invariants hold, the new polygon's half-edges run along its sides, and every older half-edge is still found from its endpoints |
| `FaceLookup.AddFaceFindsOlder` | subdiv/src/control/mesh.cpp:237-246 | after an accepted face, `findHalfEdge` applied to the endpoints of each half-edge the mesh had before returns that half-edge |
| `FaceAsWritten.AbortedState` | subdiv/src/control/mesh.cpp:89-98 | a refused side cuts the half-edges back to where the face started but keeps edges, map entries and faces, and may leave the tail's `outgoing` at the removed half-edge |
| `FaceAsWritten.RunAsWritten` | subdiv/src/control/mesh.cpp:62-120 | the creation loop as written either finishes with one half-edge per side, or aborts with the half-edges cut back |
| `FaceAsWritten.AddFaceAsWritten` | subdiv/src/control/mesh.cpp:20-140 | returns the sentinel with the faces unchanged, or the next face index with `n` new half-edges; too few or repeated vertices change nothing |
| `FaceAsWritten.NoAbortAt` | subdiv/src/control/mesh.cpp:89-98 | on a polygon the corrected checks accept, no side of the loop as written aborts |
| `FaceAsWritten.RunFromCreated` | subdiv/src/control/mesh.cpp:62-120 | on an accepted polygon the loop as written finishes with exactly the half-edges the corrected creation makes |
| `FaceAsWritten.AsWrittenAgreesOnAccepted` | subdiv/src/control/mesh.cpp:20-140 | on every polygon the corrected checks accept, `addFace` as written builds the same mesh and returns the same face index |
| `MeshQueries.InRangeBounded` | subdiv/src/control/mesh.cpp:154-235 | a mesh with links in range gives the vertex walks only links that are unset or name a half-edge |
| `MeshQueries.ForwardSpokes` | subdiv/src/control/mesh.cpp:163-174 | the forward spoke count grows at every step and never exceeds the 1000-step guard by more than one |
| `MeshQueries.BackwardSpokes` | subdiv/src/control/mesh.cpp:176-189 | the backward walk takes at most `fuel` steps |
| `MeshQueries.VertexValenceAsWritten` | subdiv/src/control/mesh.cpp:154-202 | `getVertexValence` as written: 0 for an isolated vertex, never below -1 |
| `MeshQueries.VertexValence` | subdiv/src/control/mesh.cpp:154-202 | the corrected valence: 0 for an isolated vertex, never below -1 |
| `MeshQueries.GetVertexValence` | subdiv/src/control/mesh.cpp:154-202 | the loop of `getVertexValence` returns the as-written valence |
| `MeshQueries.CountValence` | subdiv/src/control/mesh.cpp:154-202 | the corrected loop returns the corrected valence |
| `MeshQueries.BoundaryQuery` | subdiv/src/control/mesh.cpp:204-235 | an isolated vertex is a boundary vertex |
| `MeshQueries.IsBoundaryVertex` | subdiv/src/control/mesh.cpp:204-235 | the loop of `isBoundaryVertex` returns the boundary walk's answer |
| `MeshQueries.LaidOutLinksUndo` | subdiv/src/control/mesh.cpp:122-130 | in a mesh of laid-out faces with paired twins, every `next` and `prev` link names a half-edge and each undoes the other, which is what makes the vertex walks stop |
| `MeshQueries.DistinctBelow` | subdiv/src/control/mesh.cpp:176-189 | more distinct half-edges than exist is impossible (the pigeonhole step that bounds the walks) |
| `MeshQueries.BoundaryWalkStops` | subdiv/src/control/mesh.cpp:212-235 | the boundary walk stops within as many steps as there are half-edges |
| `MeshQueries.ValenceWalkStops` | subdiv/src/control/mesh.cpp:176-189 | the backward valence walk stops within as many steps as there are half-edges |
| `MeshQueries.WalksAgree` | subdiv/src/control/mesh.cpp:163-235 | the boundary walk and the forward valence walk visit the same spokes: boundary iff the forward walk meets a half-edge without a twin |
| `MeshQueries.BoundaryMeansOpenFan` | subdiv/src/control/mesh.cpp:154-235 | both queries terminate; a vertex is boundary iff its forward fan opens; at an interior vertex the as-written and corrected valences agree |
| `MeshQueries.WellFormedWalksStop` | subdiv/src/control/mesh.cpp:154-235 | on a well-formed mesh every vertex query terminates |
| `MeshQueries.FindHalfEdgeAsWritten` | subdiv/src/control/mesh.cpp:237-246 | the forward-only lookup returns the sentinel or a half-edge from `v0` to `v1` |
| `MeshQueries.AsWrittenFindsRegistered` | subdiv/src/control/mesh.cpp:237-246 | the forward-only lookup finds a half-edge iff its own key is registered |
| `MeshQueries.FindEdgeAsWritten` | subdiv/src/control/mesh.cpp:248-259 | `findEdge` as written returns the sentinel or an existing edge |
| `MeshQueries.FindEdgeAsWrittenAgrees` | subdiv/src/control/mesh.cpp:248-259 | on a well-formed mesh `findEdge` as written equals the corrected `findEdge` (it tries both directions itself) |
| `MeshValidation.CheckHalfEdge` | subdiv/src/control/mesh.cpp:276-320 | the per-half-edge checks return exactly the half-edge predicate: links in range, `next.prev`, `prev.next`, `twin.twin`, shared edge |
| `MeshValidation.CheckFaceLoop` | subdiv/src/control/mesh.cpp:323-366 | the per-face loop check returns exactly the face predicate: the loop closes in `valence` steps and every half-edge names the face (the step counter's width is listed under Left out) |
| `MeshValidation.CountFitsUnlessWrapping` | subdiv/src/control/mesh.cpp:335-352 | the cap `valence + 1` is 2^32 - 1 iff the valence is 0xFFFFFFFE modulo 2^32; for every other valence the walk's count stays below 2^32, so it equals the source's `uint32_t` count |
| `MeshValidation.CountHalfEdgesOn` | subdiv/src/control/mesh.cpp:369-384 | the loop counts the half-edges that name edge `e` |
| `MeshValidation.Validate` | subdiv/src/control/mesh.cpp:263-400 | `validate` returns true iff every half-edge, face and edge check holds (at valence 0xFFFFFFFE the source may not terminate; see Left out) |
| `MeshValidation.CountAtMostTwo` | subdiv/src/control/mesh.cpp:369-384 | an edge named by at most two half-edges has a count of at most two |
| `MeshValidation.WellFormedIsValid` | subdiv/src/control/mesh.cpp:263-400 | every well-formed mesh passes `validate` |
| `ControlMesh.AcceptedFaceValidates` | subdiv/src/control/mesh.cpp:263-400 | after every accepted `addFace` on a well-formed mesh, `validate` returns true |
| `ControlMesh.AddVertexPreservesWellFormed` | subdiv/src/control/mesh.cpp:12-18 | adding a vertex keeps the mesh well-formed; the new vertex has valence 0 and is a boundary vertex |
| `ControlMesh.RebuiltEntry` | subdiv/src/control/mesh.cpp:416-432 | every entry of the map after the rebuild loop is a half-edge with a set predecessor, registered under its own key (the converse direction is `RebuiltLatest`) |
| `ControlMesh.RebuiltLatest` | subdiv/src/control/mesh.cpp:416-432 | the rebuilt map holds the last half-edge with each key |
| `ControlMesh.RebuiltSound` | subdiv/src/control/mesh.cpp:416-432 | every entry of the rebuilt map names a half-edge with that key |
| `ControlMesh.RebuildRegistersAll` | subdiv/src/control/mesh.cpp:416-432 | with unique directed pairs, the rebuild registers every half-edge under its own key |
| `ControlMesh.RebuildPreservesWellFormed` | subdiv/src/control/mesh.cpp:416-432 | rebuilding the map of a well-formed mesh leaves it well-formed |
| `ControlMesh.RebuiltLookupFindsAll` | subdiv/src/control/mesh.cpp:237-246 | after a rebuild the forward-only lookup as written finds every half-edge |
| `ControlMesh.CheckPolygon` | subdiv/src/control/mesh.cpp:32-98 | the check loops return exactly the first failing check's error, or none |
| `ControlMesh.FindMissingVertex` | subdiv/src/control/mesh.cpp:32-49 | the loop returns the first out-of-range position |
| `ControlMesh.FindDuplicate` | subdiv/src/control/mesh.cpp:38-49 | the nested loop returns the first duplicate pair |
| `ControlMesh.FindSideConflict` | subdiv/src/control/mesh.cpp:80-98 | the loop returns the first non-manifold side |
| `ControlMesh.Mesh.constructor` | subdiv/include/control/mesh.hpp:24 | a new mesh is empty and its cache is not built |
| `ControlMesh.Mesh.AddVertex` | subdiv/src/control/mesh.cpp:12-18 | returns the old vertex count, appends one isolated vertex, leaves the mesh non-empty and the cache cleared, and keeps a well-formed mesh well-formed when the new index stays below the sentinel, as the tests expect (last row of "## Findings") |
| `ControlMesh.Mesh.Clear` | subdiv/src/control/mesh.cpp:404-414 | every array and the directed-edge map are empty, all counts are 0, the cache is cleared, as the tests expect (last row of "## Findings") |
| `ControlMesh.Mesh.AddFace` | subdiv/src/control/mesh.cpp:20-140 | rejected: returns the sentinel and nothing changes; accepted: the new state is the insertion's result, with `n` more half-edges, one more face, and the cache cleared, as the tests expect (last row of "## Findings"); a well-formed mesh with room for the new half-edges, edges and face below the sentinel stays well-formed, so calls can be chained |
| `ControlMesh.Mesh.RebuildEdgeMap` | subdiv/src/control/mesh.cpp:416-432 | the map is replaced by the rebuilt map of the current half-edges, and a well-formed mesh stays well-formed |
| `ControlMesh.Mesh.BuildCache` | subdiv/include/control/mesh.hpp:57 | `buildCache` is only declared there, with no body in `mesh.cpp`; the model builds the cache with `TopologyCache::build`, as its name and test_meshcache.cpp:21-42 imply. The cache is built from the current mesh and valid iff the mesh has vertices |
| `ControlMesh.Mesh.GetValence` | subdiv/include/control/mesh.hpp:45 | `getValence` is only declared there, with no body in `mesh.cpp`; the lazy build is the behaviour test_meshcache.cpp:21-42 expects. It returns the cached valence; a cache marked built is read unchanged; when the cache was current or not built, it is current afterwards (valid on a non-empty mesh) and the answer is the number of edges at the vertex, modulo 2^16 |
| `ControlMesh.Mesh.AddVertexKeepingCache` | subdiv/src/control/mesh.cpp:12-18 | `addVertex` as written: returns the old vertex count and appends an isolated vertex; the cache is not touched |
| `ControlMesh.Mesh.ClearKeepingCache` | subdiv/src/control/mesh.cpp:404-414 | `clear` as written: the arrays and the map are emptied; the cache is not touched |
| `ControlMesh.Mesh.AddFaceKeepingCache` | subdiv/src/control/mesh.cpp:20-140 | `addFace` as written as far as the cache goes: the same result and new mesh as the corrected insertion, with the cache not touched |
| `Csr.OffsetsArePrefixSums` | subdiv/src/control/mesh_cache.cpp:135-161 | offset `k` is the sum of the first `k` counts |
| `Csr.OffsetsMonotone` | subdiv/src/control/mesh_cache.cpp:135-161 | offsets never decrease |
| `Csr.WrappedOffsets` | subdiv/src/control/mesh_cache.cpp:135-161 | an offset table summed in `uint32_t` holds every true offset modulo 2^32, and it equals the true table iff the total of the counts is below 2^32 |
| `Csr.BuildOffsets` | subdiv/src/control/mesh_cache.cpp:135-161 | `off[0] = 0`, `off[i+1] = off[i] + counts[i]`, offsets are monotone, and the last is the total the backing array is sized to |
| `Csr.Table.Put` | subdiv/src/control/mesh_cache.cpp:199-200 | a cursor write stores at the slot's cursor only while it is inside the slot, advances only that cursor, and changes no other cell |
| `Csr.StartRepresents` | subdiv/src/control/mesh_cache.cpp:165-169 | fresh cursors at the slot starts represent empty lists |
| `Csr.PutAppends` | subdiv/src/control/mesh_cache.cpp:199-200 | a guarded write appends to its own slot's list and no other |
| `Csr.PutCell` | subdiv/src/control/mesh_cache.cpp:199-200 | every cell of every slot after a write holds the entry of the appended list at that position |
| `Csr.SlotHoldsList` | subdiv/src/control/mesh_cache.cpp:347-400 | a filled slot stays within the flat array and holds its list, cut to the slot's size |
| `Csr.PutAllAppends` | subdiv/src/control/mesh_cache.cpp:193-238 | a run of guarded writes to one slot appends the whole run to that slot's list |
| `Csr.PrefixFill` | subdiv/src/control/mesh_cache.cpp:173-246 | filling slot `k` with its list extends the filled prefix by one element |
| `Csr.SpanGuardAsWritten` | subdiv/src/control/mesh_cache.cpp:351 | the guard `i >= offsets.size() - 1` as written: on a non-empty table it refuses exactly the indices out of range; on an empty table the 64-bit subtraction wraps and only `2^64-1` is refused |
| `Csr.SpanGuardWraps` | subdiv/src/control/mesh_cache.cpp:351 | on an empty offset array the guard lets every ordinary index through |
| `Csr.SpanOf` | subdiv/src/control/mesh_cache.cpp:347-400 | a span read is empty for an index out of range and otherwise the index's slot |
| `CacheWalks.FaceLoop` | subdiv/src/control/mesh_cache.cpp:267-302 | the face loop visits only half-edges, and is empty iff the face has no start half-edge |
| `CacheWalks.FaceLoopIsBlock` | subdiv/src/control/mesh_cache.cpp:267-302 | for a laid-out face the loop is exactly its block of `valence` consecutive half-edges |
| `CacheWalks.FaceVerticesInOrder` | subdiv/src/control/mesh_cache.cpp:269-302 | face vertices are the tails of the loop from `face.edge`, in order, `valence` of them |
| `CacheWalks.FaceEdgesInOrder` | subdiv/src/control/mesh_cache.cpp:269-302 | face edges are the loop's edges, in order, `valence` of them |
| `CacheWalks.ForwardFrom` | subdiv/src/control/mesh_cache.cpp:193-211 | the forward one-ring walk terminates through its visited set, records one neighbour per new half-edge, and stops at a boundary only at a half-edge without a twin |
| `CacheWalks.OneRingNeighbours` | subdiv/src/control/mesh_cache.cpp:173-246 | every entry of the one-ring walk as written is a neighbour of the vertex |
| `CacheWalks.OneRingFromStartNeighbours` | subdiv/src/control/mesh_cache.cpp:173-246 | every entry of the corrected one-ring walk is a neighbour of the vertex |
| `CacheSpec.Unset` | subdiv/include/control/mesh_cache.hpp:105-110 | the unset endpoint pair is `{INVALID_INDEX, INVALID_INDEX}` |
| `CacheSpec.Canonical` | subdiv/src/control/mesh_cache.cpp:40-48 | the cached pair is ordered `v0 <= v1` and holds the same two vertices |
| `CacheSpec.CanonicalSymmetric` | subdiv/src/control/mesh_cache.cpp:40-48 | the canonical pair does not depend on the direction of the half-edge |
| `CacheSpec.EdgeEndsMeaning` | subdiv/src/control/mesh_cache.cpp:33-57 | after the scan, every edge's ends are the canonical endpoints of any of its half-edges |
| `CacheSpec.SameEdgeSameEnds` | subdiv/src/control/mesh_cache.cpp:33-57 | two half-edges of one edge give the same canonical endpoints |
| `CacheSpec.EdgeBorderFlags` | subdiv/src/control/mesh_cache.cpp:55-56 | one flag per edge, set iff the edge is a border edge |
| `CacheSpec.EdgeFaceCount` | subdiv/src/control/mesh_cache.cpp:51-56 | on a well-formed mesh an edge is flagged iff none of its half-edges has a twin, and it has one face when flagged and two otherwise |
| `CacheSpec.Valences` | subdiv/src/control/mesh_cache.cpp:72-79 | one valence per vertex, each below 2^16 |
| `CacheSpec.HitsCountEdges` | subdiv/src/control/mesh_cache.cpp:72-79 | the count the valence pass accumulates for `v` is the number of edges with `v` as an endpoint |
| `CacheSpec.ValenceCountsEdges` | subdiv/src/control/mesh_cache.cpp:72-79 | `valence[v]` equals the number of edges at `v`, modulo 2^16 |
| `CacheSpec.VertexBorderFlags` | subdiv/src/control/mesh_cache.cpp:83-96 | one 0/1 flag per vertex |
| `CacheSpec.UntwinnedIsBorder` | subdiv/src/control/mesh_cache.cpp:55-56 | a half-edge without a twin lies on a flagged edge |
| `CacheSpec.BorderVertexFlagged` | subdiv/src/control/mesh_cache.cpp:83-96 | both endpoints of a half-edge without a twin lie on a flagged edge |
| `CacheSpec.FlaggedVertexOnBorder` | subdiv/src/control/mesh_cache.cpp:83-96 | a flagged vertex is an endpoint of a boundary edge |
| `CacheSpec.CountFlags` | subdiv/src/control/mesh_cache.cpp:67-96 | 0/1 flags split into the flagged and the unflagged entries, so the boundary counter is the length minus the unflagged entries |
| `CacheSpec.ScatterAllLength` | subdiv/src/control/mesh_cache.cpp:100-130 | the number of incidences of an element is the number of times it occurs in the lists scattered |
| `CacheSpec.ScatterAllMember` | subdiv/src/control/mesh_cache.cpp:250-303 | a face is among an element's incident faces iff the element occurs in that face's list |
| `CachePasses.ScanHalfEdges` | subdiv/src/control/mesh_cache.cpp:33-57 | the half-edge scan yields the canonical edge ends, the edge border flags and the edge face counts of their specifications |
| `CachePasses.CountValences` | subdiv/src/control/mesh_cache.cpp:72-79 | the valence pass yields the specified valences |
| `CachePasses.MarkBorderVertices` | subdiv/src/control/mesh_cache.cpp:83-96 | the vertex pass flags exactly the endpoints of flagged edges |
| `CachePasses.CountFaceVisits` | subdiv/src/control/mesh_cache.cpp:111-129 | one face's loop adds one to the count of each tail it visits |
| `CachePasses.CountVertexFaces` | subdiv/src/control/mesh_cache.cpp:100-130 | the pass yields the number of face-loop visits of each vertex |
| `CachePasses.ForwardFill` | subdiv/src/control/mesh_cache.cpp:193-211 | the forward loop writes exactly the forward walk's neighbours through the cursor and returns where it stopped |
| `CachePasses.BackwardFill` | subdiv/src/control/mesh_cache.cpp:214-238 | the backward loop writes exactly the backward walk's neighbours |
| `CachePasses.OneRingFill` | subdiv/src/control/mesh_cache.cpp:173-246 | one vertex's one-ring writes are the corrected walk's neighbours |
| `CachePasses.FillOneRings` | subdiv/src/control/mesh_cache.cpp:173-246 | the flat one-ring array holds every vertex's walk inside its slot |
| `CachePasses.FillFace` | subdiv/src/control/mesh_cache.cpp:267-302 | one face's loop writes its vertices, its edges, and itself into its vertices' and edges' slots |
| `CachePasses.FillFaces` | subdiv/src/control/mesh_cache.cpp:250-303 | the four flat arrays hold face vertices, face edges, vertex faces and edge faces, each inside its owner's slot |
| `MeshCache.TopologyCache.constructor` | subdiv/include/control/mesh_cache.hpp:157-189 | a new cache is cleared |
| `MeshCache.TopologyCache.Clear` | subdiv/src/control/mesh_cache.cpp:324-345 | every array is empty, the counters are zero and the cache is not valid |
| `MeshCache.TopologyCache.Build` | subdiv/src/control/mesh_cache.cpp:10-322 | an empty mesh leaves the cache cleared; otherwise every array is the one its specification gives for the mesh, and the cache is valid |
| `MeshCache.TopologyCache.IsValid` | subdiv/include/control/mesh_cache.hpp:60 | reports whether the cache holds a build |
| `MeshCache.RunPasses` | subdiv/src/control/mesh_cache.cpp:24-303 | the phases together compute every array from the mesh, with a non-empty valence array |
| `MeshCache.ElementPasses` | subdiv/src/control/mesh_cache.cpp:24-96 | phases 1-3 compute edge ends, valences, flags and counters |
| `MeshCache.IncidencePasses` | subdiv/src/control/mesh_cache.cpp:100-303 | phases 4-8 compute offsets and fill every CSR array inside its slots |
| `MeshCache.ClearedQueries` | subdiv/include/control/mesh_cache.hpp:60-137 | on a cleared cache: not valid, valence 0, no flags, unset edge ends, every span empty, every count 0 |
| `MeshCache.BuiltValence` | subdiv/include/control/mesh_cache.hpp:68 | after a build, `getValence(v)` is the number of edges at `v` modulo 2^16, and 0 out of range |
| `MeshCache.BuiltBoundaryVertex` | subdiv/include/control/mesh_cache.hpp:73 | after a build, a vertex is boundary iff it is an endpoint of a half-edge without a twin; out of range gives false |
| `MeshCache.VertexFlagMeaning` | subdiv/src/control/mesh_cache.cpp:55-96 | a vertex flag is set iff the vertex is an endpoint of an untwinned half-edge |
| `MeshCache.BuiltEdgeVertices` | subdiv/include/control/mesh_cache.hpp:105-110 | after a build an edge's vertices are the canonical endpoints of its half-edges; out of range gives the unset pair |
| `MeshCache.BuiltBoundaryEdge` | subdiv/include/control/mesh_cache.hpp:98 | after a build an edge is boundary iff its half-edges have no twin; it has one face then and two otherwise |
| `MeshCache.EdgeFlagMeaning` | subdiv/src/control/mesh_cache.cpp:51-56 | an edge flag is set iff the edge's half-edges are untwinned, and then its face count is 1 |
| `MeshCache.BuiltFaceVertices` | subdiv/src/control/mesh_cache.cpp:380-389 | after a build, a face's vertices are the tails of its loop in order; out of range gives an empty span |
| `MeshCache.BuiltFaceEdges` | subdiv/src/control/mesh_cache.cpp:391-400 | after a build, a face's edges are its loop's edges in order; out of range gives an empty span |
| `MeshCache.BuiltVertexFaces` | subdiv/src/control/mesh_cache.cpp:358-367 | after a build, a vertex's faces are exactly the faces it lies on, once per visit |
| `MeshCache.VertexFacesMeaning` | subdiv/src/control/mesh_cache.cpp:100-130 | the vertex-face span has one entry per face-loop visit, and holds `f` iff `v` is on face `f` |
| `MeshCache.BuiltSpan` | subdiv/src/control/mesh_cache.cpp:347-400 | a built CSR slot has its count of entries, which are its list's entries |
| `MeshCache.BuiltOneRing` | subdiv/src/control/mesh_cache.cpp:347-356 | after a build, the one-ring span has as many entries as the vertex's valence, filled from the corrected walk |
| `MeshCache.BuiltOneRingAdjacent` | subdiv/src/control/mesh_cache.cpp:173-246 | every one-ring entry written by the walk is a neighbour of the vertex |
| `MeshCache.BuiltCounts` | subdiv/include/control/mesh_cache.hpp:133-137 | `numVertices`, `numEdges` and `numFaces` are the mesh's counts; the boundary counters equal the number of flagged vertices and edges |
| `MeshCache.CountOnes` | subdiv/src/control/mesh_cache.cpp:67-96 | the counter of set flags is the size of the set of flagged indices |
| `MeshCache.BuiltMemory` | subdiv/src/control/mesh_cache.cpp:402-419 | after a build, the memory figure is the sum of the array sizes times their element sizes |
| `Rendering.WalkLimit` | consumerApp/src/render_mesh.cpp:54 | the walk limit is `valence + 10` while that fits in 32 bits |
| `Rendering.WalkEnds` | consumerApp/src/render_mesh.cpp:45-56 | the face walk collects the current tail and stops when the next link returns to the start, is unset, or the step count passes the limit |
| `Rendering.FaceVerts` | consumerApp/src/render_mesh.cpp:33-56 | a face with valence below 3, or with an invalid or out-of-range start half-edge, yields no vertices |
| `Rendering.FaceVertsOfLaidOutFace` | consumerApp/src/render_mesh.cpp:42-56 | for a laid-out face the walk collects exactly its `valence` tails, in loop order |
| `Rendering.Fan` | consumerApp/src/render_mesh.cpp:58-65 | a face with `k >= 3` collected vertices gives `3(k-2)` indices, and fewer vertices give none |
| `Rendering.FanTriangles` | consumerApp/src/render_mesh.cpp:60-64 | triangle `t` of a fan is `(f[0], f[t+1], f[t+2])` |
| `Rendering.LaidOutFans` | consumerApp/src/render_mesh.cpp:27-67 | every laid-out face yields its full polygon for the fan |
| `Rendering.FanCount` | consumerApp/src/render_mesh.cpp:27-67 | the triangle buffer holds three indices per triangle of the polygons' fans |
| `Rendering.LinesOfSetEnds` | consumerApp/src/render_mesh.cpp:77-83 | with every cached pair set, the wireframe holds one `(v0, v1)` pair per edge, in edge order |
| `Rendering.LinesOfNoEnds` | consumerApp/src/render_mesh.cpp:79 | with no cached endpoint pairs (an empty table, so every lookup gives the unset pair) no line is emitted |
| `Rendering.MeshLines` | consumerApp/src/render_mesh.cpp:69-84 | on a mesh with paired twins, line `e` is the canonical endpoints of edge `e` |
| `Rendering.CollectFaceVertices` | consumerApp/src/render_mesh.cpp:36-56 | the do-while walk collects exactly the specified face vertices |
| `Rendering.RenderMesh.constructor` | consumerApp/include/render_mesh.hpp:99-102 | a new render mesh has empty buffers and is not valid |
| `Rendering.RenderMesh.Clear` | consumerApp/src/render_mesh.cpp:20-25 | both buffers are empty and the object is not valid |
| `Rendering.RenderMesh.Build` | consumerApp/src/render_mesh.cpp:8-18 | rebuilds both buffers from scratch (the fan triangulation and the lines of the cached edges) and sets the object valid; the cache is built if it was not |
| `Rendering.RenderMesh.BuildTriangleIndices` | consumerApp/src/render_mesh.cpp:27-67 | appends the fans of all faces, in face order, and touches nothing else |
| `Rendering.RenderMesh.AppendFan` | consumerApp/src/render_mesh.cpp:58-65 | appends exactly one face's fan |
| `Rendering.RenderMesh.BuildWireframeIndices` | consumerApp/src/render_mesh.cpp:69-84 | builds the cache if it is not valid, then appends one line per edge with set ends |
| `Rendering.RenderMesh.IsValid` | consumerApp/include/render_mesh.hpp:46 | reports the `valid_` flag |
| `Rendering.BuiltRenderCounts` | consumerApp/include/render_mesh.hpp:62-94 | after a build on a well-formed mesh: `numTriangles` is the number of fan triangles; `numWireframeLines` is the edge count; the byte sizes are 4 times the index counts; memory is their sum |
| `Rendering.RenderSizes` | consumerApp/src/render_mesh.cpp:27-84 | the triangle buffer has three indices per triangle and the wireframe two per edge |
| `Diagnostics.MemoryInfo.RecordAllocation` | subdiv/include/diagnostics/context.hpp:76-80 | adds the bytes, counts one more allocation, and raises the peak to `max(peak, allocated)` |
| `Diagnostics.MemoryInfo.RecordDeallocation` | subdiv/include/diagnostics/context.hpp:82-84 | subtracts the bytes, saturating at 0, and keeps the peak and the count |
| `Diagnostics.NewMemoryInfo` | subdiv/include/diagnostics/context.hpp:73-74 | a new record is all zero and its peak covers its allocation |
| `Diagnostics.ReplayKeepsPeak` | subdiv/include/diagnostics/context.hpp:76-84 | over any sequence of allocations and deallocations the peak stays at least the allocated bytes and never decreases |
| `Diagnostics.Result.ValueOr` | subdiv/include/diagnostics/context.hpp:259-261 | `valueOr(d)` is the held value when ok and `d` otherwise |
| `Diagnostics.Success` | subdiv/include/diagnostics/context.hpp:238-242 | `success(v)` is ok, not an error, and holds `v` |
| `Diagnostics.Failure` | subdiv/include/diagnostics/context.hpp:244-249 | `error(...)` is an error, not ok, and holds the error record |
| `Diagnostics.Context.constructor` | subdiv/include/diagnostics/context.hpp:210-227 | a new context is disabled with an empty log and no memory categories |
| `Diagnostics.Context.Enable` | subdiv/src/diagnostics/context.cpp:39-44 | sets the mode; `isEnabled` then holds iff the mode is not DISABLED; the log is kept |
| `Diagnostics.Context.Disable` | subdiv/src/diagnostics/context.cpp:46-51 | the mode is DISABLED and `isEnabled` is false; the log is kept |
| `Diagnostics.Context.AddError` | subdiv/src/diagnostics/context.cpp:69-78 | appends exactly one record when the mode is not DISABLED, and otherwise does nothing |
| `Diagnostics.Context.HasErrors` | subdiv/src/diagnostics/context.cpp:80-85 | holds iff the log is non-empty, so warnings count |
| `Diagnostics.Context.HasWarnings` | subdiv/src/diagnostics/context.cpp:87-98 | holds iff some record is a warning |
| `Diagnostics.Context.HasFatalErrors` | subdiv/src/diagnostics/context.cpp:100-111 | holds iff some record is fatal |
| `Diagnostics.Context.GetLastError` | subdiv/src/diagnostics/context.cpp:120-129 | nothing iff the log is empty, otherwise the most recently appended record |
| `Diagnostics.Context.Clear` | subdiv/src/diagnostics/context.cpp:364-379 | the log and the memory categories are empty, and the mode is kept |
| `Diagnostics.Context.RecordAllocation` | subdiv/src/diagnostics/context.cpp:279-293 | in the build with memory tracking compiled in, acts only in FULL_DIAGNOSTICS; creates and names the category on first use and records the allocation in it |
| `Diagnostics.Context.RecordDeallocation` | subdiv/src/diagnostics/context.cpp:295-308 | in the build with memory tracking compiled in, acts only in FULL_DIAGNOSTICS and on a known category, where it records the deallocation |
| `MeshScenarios.TriangleBuilt` | subdiv/tests/test_controlmesh.cpp:175-190 | adding `{0,1,2}` to four isolated vertices is accepted as face 0 and gives a mesh with 3 edges and three untwinned half-edges |
| `MeshScenarios.StripBuilt` | subdiv/tests/test_halfedge.cpp:259-270 | adding `{0,2,3}` next to it is accepted as face 1; the shared side becomes a twin pair and the mesh has 5 edges |
| `MeshScenarios.FanBuilt` | subdiv/tests/test_halfedge.cpp:272-284 | adding `{0,3,1}` closes the fan round vertex 0 as face 2 |
| `MeshScenarios.StripWellFormed` | subdiv/tests/test_controlmesh.cpp:175-190 | the two-triangle mesh is well-formed |
| `MeshScenarios.FanWellFormed` | subdiv/tests/test_halfedge.cpp:272-284 | the closed fan is well-formed |
| `MeshScenarios.StripVertexZero` | subdiv/tests/test_halfedge.cpp:259-270 | at the centre of two triangles the vertex is boundary; the valence as written is 2; the corrected valence is 3 |
| `MeshScenarios.FanVertexZero` | subdiv/tests/test_halfedge.cpp:272-284 | the centre of a closed 3-fan is interior with valence 3, as written and corrected |
| `MeshScenarios.StripOneRingAsWritten` | subdiv/src/control/mesh_cache.cpp:214-238 | on the two-triangle mesh, vertex 2's one-ring as written is `[0, 3]`; starting the backward walk at the outgoing half-edge gives `[0, 3, 1]` |
| `MeshScenarios.StripOneRingCentre` | subdiv/tests/test_meshcache.cpp:177-205 | on the test's mesh `{0,1,2}`, `{0,2,3}` both the walk as written and the corrected walk give centre vertex 0 the one-ring `[1, 2, 3]` |
| `MeshScenarios.StripEdgesAtCentre` | subdiv/tests/test_meshcache.cpp:177-205 | vertex 0 of that mesh has three incident edges |
| `MeshScenarios.StripCacheCentre` | subdiv/tests/test_meshcache.cpp:177-205 | a cache built from that mesh gives vertex 0 the valence 3 and the one-ring `[1, 2, 3]`: as long as the valence, and holding 1, 2 and 3 |
| `MeshScenarios.TriangleEdgesAtCorner` | subdiv/tests/test_meshcache.cpp:21-43 | vertex 0 of the single triangle has two incident edges |
| `MeshScenarios.TriangleCacheCorner` | subdiv/tests/test_meshcache.cpp:21-43 | a cache built from the triangle gives vertex 0 the valence 2 |
| `MeshScenarios.StaleValence` | subdiv/src/control/mesh.cpp:20-140 | as written, adding the triangle `{0,2,3}` after the cache was built leaves `getValence(0)` at 2 although vertex 0 now has three edges |
| `MeshScenarios.FreshValence` | subdiv/tests/test_meshcache.cpp:59-72 | with the cache cleared on every edit, the same edit followed by `getValence(0)` gives 3 and leaves the cache built |
| `MeshScenarios.StripLookupAsWritten` | subdiv/src/control/mesh.cpp:237-246 | the forward-only lookup does not find the twinned half-edge 0 to 2 |
| `MeshScenarios.StripLookupBothWays` | subdiv/tests/test_controlmesh.cpp:287-306 | the corrected lookup finds both directions of the shared edge |
| `MeshScenarios.RepeatAcceptedAsWritten` | subdiv/src/control/mesh.cpp:80-120 | as written, `{0,1,3}` after `{0,1,2}` is accepted and repeats the directed edge 0 to 1 |
| `MeshScenarios.RepeatMeshBroken` | subdiv/src/control/mesh.cpp:80-120 | the mesh that results has two half-edges with the same key and is not well-formed |
| `MeshScenarios.RepeatRejected` | subdiv/tests/test_controlmesh.cpp:221-243 | the corrected insertion rejects it as a non-manifold edge at position 0, and nothing changes |
| `MeshScenarios.RollbackAsWritten` | subdiv/src/control/mesh.cpp:89-98 | as written, `{1,0,2}` on the two-triangle mesh is refused at side 1 but leaves a changed mesh whose links are out of range |
| `MeshScenarios.RollbackRejected` | subdiv/src/control/mesh.cpp:89-98 | the corrected insertion rejects it at side 1 and changes nothing |
| `MeshScenarios.RollbackSides` | subdiv/src/control/mesh.cpp:80-98 | side 0 of `{1,0,2}` is free and side 1 conflicts |
| `MeshScenarios.RollbackFailsValidation` | subdiv/src/control/mesh.cpp:263-400 | the mesh the partial rollback leaves fails `validate` |

## Left out

- Positions, normals, UVs, `computeFaceNormals`/`computeVertexNormals`, `setPosition`, `setEdgeSharpness`, `setEdgeCrease`: these are floating-point attributes and vector maths. `addVertex` takes no position, and the sharpness fields are carried but never changed.
- The attribute-size checks of `validate` (mesh.cpp:386-397) compare the attribute arrays with the vertex count. Attributes are not modelled, so those checks are not either.
- The diagnostic calls inside the mesh and the cache: error reports, profiling scopes, timers and summaries. `addFace` returns its error as a value instead.
- `TimingInfo`, `ScopedTimer`, `startTimer`/`stopTimer`/`recordTiming`, the report formatters, `getErrors`, `getMode`, the mutex and the singleton: clocks, formatted output and locking. The context is one sequential object.
- The GPU data pointers and byte getters of `mesh.hpp`, and `Mesh::getMemoryUsage`: they depend on raw pointers and `sizeof`.
- `getOneRing`, `getEdgeVertices` and `isBoundaryVertex` of `mesh.hpp`: the first two have no body. The cache's own accessors are modelled, and so is `isBoundaryVertex` as `mesh.cpp` defines it.
- The legacy `BaseMesh` and `utils.hpp` code, and the consumer application's window loop (`app.cpp`, `main.cpp`): not part of this model.
- `HalfEdgeTopology.DirectedKey.Packed`: the key is kept as a pair, and packing is proved injective. The 64-bit `unordered_map` is a Dafny `map`.
- `MeshCache.TopologyCache.Build`: the CSR offsets are unbounded naturals, and the model does not follow their wrap. The source stores them as `uint32_t` (mesh_cache.cpp:135-161), and they do wrap once a total reaches 2^32. Two faces of valence 2^31 are enough, and on a well-formed mesh the one-ring offsets reach twice the edge count. The source then sizes its arrays by the wrapped total and reads spans out of bounds. `Csr.WrappedOffsets` proves that the `uint32_t` table equals the model's iff the total is below 2^32, so the model is exact for meshes whose five offset totals fit. Valences do wrap modulo 2^16, as `uint16_t` does.
- `ControlMesh.Mesh.AddVertex`: the cast of the vertex count to a 32-bit index is not modelled. The well-formedness lemma asks for room below the sentinel.
- `FaceInsertion.AddFacePreservesWellFormed`: it asks that the new half-edges, edges and face still have indices below the sentinel. The source assumes the same without checking.
- `MeshValidation.CheckFaceLoop`, `MeshValidation.Validate`: the face-loop step counter is a natural number, and the source's is `uint32_t count` (mesh.cpp:335). For a face of valence 0xFFFFFFFE the cap `valence + 1` is 2^32 - 1, which that counter can never pass. Suppose such a face's `next` chain runs 2^32 steps without coming back to its start, for example by entering a cycle that avoids it. The source's do-while (mesh.cpp:337-358) then does not terminate, or its count wraps. The model instead stops with an error, and `validate` returns false. `MeshValidation.CountFitsUnlessWrapping` proves that this is the only valence where the two counts can differ.
- `MeshValidation.CountHalfEdgesOn`: the counter is a natural number. The source's `int heCount` cannot overflow for any mesh that fits in memory.
- `FaceAsWritten.AddFaceAsWritten`: it requires existing vertices. For an index out of range the source reads past the vertex array, and that behaviour is undefined.
- `MeshQueries.GetVertexValence`, `MeshQueries.IsBoundaryVertex`: they require the walk to stop. The source loops forever on a mesh where it does not. `MeshQueries.WellFormedWalksStop` proves that the walks stop on every well-formed mesh.
- `Rendering.RenderMesh.Build`: it takes the mesh and its cache as arguments. The source holds them as a reference member. `mesh.cpp`'s `addFace` silently changing the mesh under a live `RenderMesh` is not modelled.
- `FaceInsertion.AddFace`, `FaceInsertion.CheckFace`, `ControlMesh.CheckPolygon`, `ControlMesh.FindMissingVertex`: the range check on the vertex indices is an addition. `addFace` as written (mesh.cpp:32-49) does not check that the indices exist, and reads past the vertex array for one that does not, which is undefined behaviour. The model rejects such a polygon with `INVALID_VERTEX_INDEX` (the code the tests expect) before changing anything.
- `Diagnostics.Context.RecordAllocation`, `Diagnostics.Context.RecordDeallocation`: the model covers the build with memory tracking compiled in. Their bodies sit under `#if SUBDIV_MEMORY_TRACKING_ENABLED` (context.cpp:278, 376). That flag is 0 unless `SUBDIV_ENABLE_MEMORY_TRACKING` is defined (config.hpp:10-14), and then both calls do nothing.
- `Diagnostics.MemoryInfo.RecordAllocation`, `Diagnostics.Context.RecordAllocation`: `allocatedBytes`, `peakBytes` and `allocationCount` are `size_t` in the source and wrap modulo 2^64. The model uses unbounded naturals. `PeakCovers` still holds under the wrap, because the peak is set to the larger of the old peak and the new total, whatever that total is, and a deallocation only lowers the total.
- `MeshCache.BuiltMemory`: element sizes are the C++ sizes of `uint16_t`, `uint8_t`, `uint32_t` and index pairs. Vector capacity beyond size is not counted, as in the source.

## Findings

| source | as written | input that shows it | evidently intended | confidence | as-written member | corrected member |
|---|---|---|---|---|---|---|
| subdiv/src/control/mesh.cpp:237-246 | `findHalfEdge` looks up only the forward key. Half-edges paired with an existing reverse are never registered, so they are not found. | mesh `{0,1,2}`, `{0,2,3}`: `findHalfEdge(0, 2)` returns `INVALID_INDEX` although half-edge 3 runs from 0 to 2 | fall back to the twin of the registered reverse half-edge, so both directions of an interior edge are found | high, not executed | `MeshQueries.FindHalfEdgeAsWritten`, `MeshScenarios.StripLookupAsWritten` | `HalfEdgeTopology.MeshData.FindHalfEdge`, `MeshScenarios.StripLookupBothWays`, `HalfEdgeTopology.MeshData.FindHalfEdgeFinds` |
| subdiv/src/control/mesh.cpp:176-189 | the backward walk of `getVertexValence` stops at a predecessor without a twin without counting that predecessor's edge | mesh `{0,1,2}`, `{0,2,3}`: `getVertexValence(0)` is 2, though vertex 0 has three edges | count the last border spoke as well (valence 3) | high, not executed | `MeshQueries.VertexValenceAsWritten`, `MeshScenarios.StripVertexZero` | `MeshQueries.VertexValence`, `MeshQueries.CountValence`, `MeshScenarios.StripVertexZero` |
| subdiv/src/control/mesh_cache.cpp:214-238 | the cache's backward one-ring walk starts from the half-edge where the forward walk stopped, whose twin the forward walk has already visited | mesh `{0,1,2}`, `{0,2,3}`: the one-ring of vertex 2 is `[0, 3]`; vertex 1 is missing, and the third slot entry stays 0 | start the backward walk from the outgoing half-edge, giving `[0, 3, 1]` (one entry per incident edge) | high, not executed | `CacheWalks.OneRingWalk`, `MeshScenarios.StripOneRingAsWritten` | `CacheWalks.OneRingWalkFromStart`, `CacheWalks.OneRingFromStartNeighbours`, `MeshCache.BuiltOneRing`, `MeshScenarios.StripCacheCentre` |
| subdiv/src/control/mesh_cache.cpp:351 | the span guard `v >= offsets.size() - 1` wraps on an empty offset array (a cleared cache), so every index passes it and `offsets[v]` is read out of bounds | a cleared cache, `getVertexOneRing(0)` | treat an empty offset array as having no elements and return an empty span | high, not executed | `Csr.SpanGuardAsWritten`, `Csr.SpanGuardWraps` | `Csr.SpanOf`, `MeshCache.ClearedQueries` |
| subdiv/src/control/mesh.cpp:80-118 | `addFace` checks only the reverse key, so a polygon that repeats an existing directed edge is accepted | mesh `{0,1,2}`, then `addFace({0,1,3})` is accepted, and two half-edges run from 0 to 1 | reject the repeated directed edge with `NON_MANIFOLD_EDGE` and change nothing | high, not executed | `FaceAsWritten.AddFaceAsWritten`, `MeshScenarios.RepeatAcceptedAsWritten`, `MeshScenarios.RepeatMeshBroken` | `FaceInsertion.AddFace`, `MeshScenarios.RepeatRejected`, `FaceInsertion.AddFacePreservesWellFormed` |
| subdiv/src/control/mesh.cpp:89-98 | on a non-manifold side `addFace` truncates only the half-edge array. Edges, map entries, twin links and `outgoing` links made by earlier sides survive and point at removed half-edges. | mesh `{0,1,2}`, `{0,2,3}`, then `addFace({1,0,2})`: refused at side 1, but the mesh is changed and fails `validate` | check every side before changing anything, so a refused face leaves the mesh as it was | high, not executed | `FaceAsWritten.AbortedState`, `MeshScenarios.RollbackAsWritten`, `MeshScenarios.RollbackFailsValidation` | `FaceInsertion.AddFace`, `MeshScenarios.RollbackRejected`, `ControlMesh.Mesh.AddFace` |
| subdiv/src/control/mesh.cpp:12-140 | `addVertex`, `addFace` (and `clear`, mesh.cpp:404-414) never call `invalidateCache` (mesh.hpp:89), so a cache built before an edit stays marked as built and the lazy getters read it | mesh `{0,1,2}` with a fourth vertex, `buildCache()`, then `addFace({0,2,3})`: `cache.isValid()` stays true and `getValence(0)` returns 2, though vertex 0 now has three edges | clear the cache on every edit, as the tests expect (test_meshcache.cpp:59-72), so the next query rebuilds it | high, not executed | `ControlMesh.Mesh.AddFaceKeepingCache`, `ControlMesh.Mesh.AddVertexKeepingCache`, `ControlMesh.Mesh.ClearKeepingCache`, `MeshScenarios.StaleValence` | `ControlMesh.Mesh.AddFace`, `ControlMesh.Mesh.AddVertex`, `ControlMesh.Mesh.Clear`, `MeshScenarios.FreshValence` |
