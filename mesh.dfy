// The control mesh object: the vertex, half-edge, edge and face arrays and
// the directed-edge map held in fields, the editing operations that change
// them (addVertex, addFace, clear, rebuildEdgeMap), and the topology cache
// the mesh owns, cleared on every edit and built on demand. Each operation
// is proved against the function on mesh states that states its effect.
// The read-only queries (findHalfEdge, findEdge, getFromVertex, the vertex
// walks, validate) are the functions and methods of HalfEdgeTopology,
// MeshQueries and MeshValidation applied to `Data()`.

module ControlMesh {
  import opened MeshTypes
  import opened HalfEdgeTopology
  import opened FaceInsertion
  import CacheWalks
  import CacheSpec
  import MeshCache
  import MeshQueries
  import MeshValidation

  // ---------------------------------------------------------------------
  // What the editing operations keep

  /** Starting from a well-formed mesh, `validate` passes after every
      accepted `addFace`. */
  lemma AcceptedFaceValidates(d: MeshData, verts: seq<Index32>)
    requires d.WellFormed() && Fits(d, verts)
    ensures FaceInsertion.AddFace(d, verts).Accepted? ==> MeshValidation.Valid(FaceInsertion.AddFace(d, verts).mesh)
  {
    AddFacePreservesWellFormed(d, verts);
    if FaceInsertion.AddFace(d, verts).Accepted? {
      MeshValidation.WellFormedIsValid(FaceInsertion.AddFace(d, verts).mesh);
    }
  }

  // ---------------------------------------------------------------------
  // addVertex on mesh states

  /** The mesh after `addVertex`: one more vertex, with no outgoing half-edge. */
  function WithVertex(d: MeshData): (r: MeshData)
  {
    d.(vertices := d.vertices + [DefaultVertex()])
  }

  /** A new vertex keeps the mesh well formed, and it is isolated: valence
      0 and on the boundary. */
  lemma AddVertexPreservesWellFormed(d: MeshData)
    requires d.WellFormed() && |d.vertices| + 1 < INVALID_INDEX
    ensures WithVertex(d).WellFormed()
    ensures MeshQueries.LinksBounded(WithVertex(d))
    ensures MeshQueries.VertexValence(WithVertex(d), |d.vertices|) == Some(0)
    ensures MeshQueries.BoundaryQuery(WithVertex(d), |d.vertices|) == Some(true)
  {
    var r := WithVertex(d);
    AddVertexLinks(d);
    SameLinksKeepFaces(d, r);
    SameLinksKeepTwins(d, r);
    SameLinksKeepKeys(d, r);
    SameLinksKeepMap(d, r);
    AddVertexOutgoing(d);
    MeshQueries.InRangeBounded(r);
  }

  lemma AddVertexLinks(d: MeshData)
    requires d.LinksInRange() && |d.vertices| + 1 < INVALID_INDEX
    ensures WithVertex(d).LinksInRange()
  {
    var r := WithVertex(d);
    forall h | 0 <= h < |r.halfEdges|
      ensures r.LinksOk(r.halfEdges[h])
    {
      assert d.LinksOk(d.halfEdges[h]);
    }
  }

  lemma AddVertexOutgoing(d: MeshData)
    requires d.LinksInRange() && d.OutgoingSound() && WithVertex(d).LinksInRange()
    ensures WithVertex(d).OutgoingSound()
  {
    var r := WithVertex(d);
    forall h | 0 <= h < |r.halfEdges|
      ensures r.vertices[r.FromVertex(h)].outgoing != INVALID_INDEX
    {
      d.EndpointsAreVertices(h);
    }
  }

  // ---------------------------------------------------------------------
  // Invariants that only read half-edges, edges, faces and the map

  /** The face layout reads only half-edges and faces. */
  lemma SameLinksKeepFaces(d: MeshData, r: MeshData)
    requires d.LinksInRange() && r.LinksInRange() && r.halfEdges == d.halfEdges && r.faces == d.faces
    ensures d.FacesLaidOut() ==> r.FacesLaidOut()
    ensures d.HalfEdgesInTheirFaces() ==> r.HalfEdgesInTheirFaces()
  {
    if d.FacesLaidOut() {
      forall f | 0 <= f < |r.faces|
        ensures r.FaceLaidOut(f)
      {
        assert d.FaceLaidOut(f);
      }
    }
  }

  /** Twin pairing and edge sharing read only half-edges and edges. */
  lemma SameLinksKeepTwins(d: MeshData, r: MeshData)
    requires d.LinksInRange() && r.LinksInRange() && r.halfEdges == d.halfEdges && r.edges == d.edges
    ensures d.TwinsPaired() ==> r.TwinsPaired()
    ensures d.EdgesUsed() ==> r.EdgesUsed()
    ensures d.EdgesShared() ==> r.EdgesShared()
  {
    if d.EdgesUsed() {
      forall e | 0 <= e < |r.edges|
        ensures r.EdgeInUse(e)
      {
        assert d.EdgeInUse(e);
      }
    }
  }

  /** The directed-pair invariants read only half-edges. */
  lemma SameLinksKeepKeys(d: MeshData, r: MeshData)
    requires d.LinksInRange() && r.LinksInRange() && r.halfEdges == d.halfEdges
    ensures d.DirectedPairsUnique() ==> r.DirectedPairsUnique()
    ensures d.OppositesPaired() ==> r.OppositesPaired()
    ensures d.NoLoops() ==> r.NoLoops()
  {
    assert forall h | 0 <= h < |r.halfEdges| :: r.FromVertex(h) == d.FromVertex(h);
    assert forall h | 0 <= h < |r.halfEdges| :: r.KeyOf(h) == d.KeyOf(h);
  }

  /** The outgoing pointers are sound whatever the map holds. */
  lemma SameLinksKeepOutgoing(d: MeshData, r: MeshData)
    requires d.LinksInRange() && r.LinksInRange() && r.halfEdges == d.halfEdges && r.vertices == d.vertices
    ensures d.OutgoingSound() ==> r.OutgoingSound()
  {
    assert forall h | 0 <= h < |r.halfEdges| :: r.FromVertex(h) == d.FromVertex(h);
  }

  /** The map invariants read only half-edges and the map. */
  lemma SameLinksKeepMap(d: MeshData, r: MeshData)
    requires d.LinksInRange() && r.LinksInRange() && r.halfEdges == d.halfEdges && r.edgeMap == d.edgeMap
    ensures d.MapSound() ==> r.MapSound()
    ensures d.MapCovers() ==> r.MapCovers()
  {
    assert forall h | 0 <= h < |r.halfEdges| :: r.KeyOf(h) == d.KeyOf(h);
  }

  // ---------------------------------------------------------------------
  // rebuildEdgeMap on mesh states

  /** What the rebuild reads without a check: every head is a 32-bit index
      and every predecessor is unset or names a half-edge. */
  ghost predicate Rebuildable(H: seq<HalfEdge>)
  {
    forall h | 0 <= h < |H| :: H[h].to < U32_MODULUS && (H[h].prev == INVALID_INDEX || H[h].prev < |H|)
  }

  /** The key the rebuild registers half-edge `h` under: the head of its
      predecessor, then its own head. */
  function RebuildKey(H: seq<HalfEdge>, h: nat): DirectedKey
    requires Rebuildable(H) && h < |H| && H[h].prev != INVALID_INDEX
  {
    DirectedEdgeKey(H[H[h].prev].to, H[h].to)
  }

  /** The map after the first `k` iterations of the rebuild: each half-edge
      with a predecessor registered under its key, a later one replacing an
      earlier one with the same key. */
  function RebuiltMap(H: seq<HalfEdge>, k: nat): map<DirectedKey, nat>
    requires Rebuildable(H) && k <= |H|
  {
    if k == 0 then map[]
    else if H[k - 1].prev == INVALID_INDEX then RebuiltMap(H, k - 1)
    else RebuiltMap(H, k - 1)[RebuildKey(H, k - 1) := k - 1]
  }

  /** Every entry of the rebuilt map is a half-edge with a predecessor,
      registered under its own key. */
  lemma {:induction false} RebuiltEntry(H: seq<HalfEdge>, k: nat, key: DirectedKey)
    requires Rebuildable(H) && k <= |H| && key in RebuiltMap(H, k)
    ensures RebuiltMap(H, k)[key] < k && H[RebuiltMap(H, k)[key]].prev != INVALID_INDEX
    ensures RebuildKey(H, RebuiltMap(H, k)[key]) == key
  {
    if H[k - 1].prev == INVALID_INDEX || key != RebuildKey(H, k - 1) {
      RebuiltEntry(H, k - 1, key);
    }
  }

  /** Each half-edge with a predecessor has its key registered, to it or to
      a later half-edge with the same key: the last writer wins. */
  lemma {:induction false} RebuiltLatest(H: seq<HalfEdge>, k: nat, h: nat)
    requires Rebuildable(H) && h < k <= |H| && H[h].prev != INVALID_INDEX
    ensures RebuildKey(H, h) in RebuiltMap(H, k) && h <= RebuiltMap(H, k)[RebuildKey(H, h)]
  {
    if h < k - 1 {
      RebuiltLatest(H, k - 1, h);
    }
  }

  /** The mesh after `rebuildEdgeMap`. */
  function Rebuilt(d: MeshData): (r: MeshData)
    requires Rebuildable(d.halfEdges)
  {
    d.(edgeMap := RebuiltMap(d.halfEdges, |d.halfEdges|))
  }

  /** Links in range are all the rebuild reads, and then it registers each
      half-edge under the key addFace would use. */
  lemma InRangeRebuildable(d: MeshData)
    requires d.LinksInRange()
    ensures Rebuildable(d.halfEdges)
    ensures Rebuilt(d).LinksInRange() && Rebuilt(d).halfEdges == d.halfEdges
  {
    forall h | 0 <= h < |d.halfEdges|
      ensures d.halfEdges[h].to < U32_MODULUS && d.halfEdges[h].prev < |d.halfEdges|
    {
      assert d.LinksOk(d.halfEdges[h]);
    }
  }

  lemma RebuildKeyIsKeyOf(d: MeshData, h: nat)
    requires d.LinksInRange() && Rebuildable(d.halfEdges) && h < |d.halfEdges|
    ensures d.halfEdges[h].prev != INVALID_INDEX && RebuildKey(d.halfEdges, h) == d.KeyOf(h)
  {
    assert d.LinksOk(d.halfEdges[h]);
  }

  /** Every entry of the rebuilt map is sound. */
  lemma RebuiltSound(d: MeshData)
    requires d.LinksInRange()
    ensures Rebuildable(d.halfEdges) && Rebuilt(d).LinksInRange() && Rebuilt(d).MapSound()
  {
    InRangeRebuildable(d);
    var r := Rebuilt(d);
    forall key | key in r.edgeMap
      ensures r.edgeMap[key] < |r.halfEdges| && r.KeyOf(r.edgeMap[key]) == key
    {
      RebuiltEntry(d.halfEdges, |d.halfEdges|, key);
      RebuildKeyIsKeyOf(d, r.edgeMap[key]);
    }
  }

  /** With every directed pair carried by one half-edge, the rebuilt map
      registers each half-edge under its own key. */
  lemma RebuiltRegistered(d: MeshData, h: nat)
    requires d.LinksInRange() && d.DirectedPairsUnique() && h < |d.halfEdges|
    ensures Rebuildable(d.halfEdges) && Rebuilt(d).LinksInRange() && Rebuilt(d).Registered(h)
  {
    InRangeRebuildable(d);
    var H := d.halfEdges;
    RebuildKeyIsKeyOf(d, h);
    RebuiltLatest(H, |H|, h);
    var e := RebuiltMap(H, |H|)[d.KeyOf(h)];
    RebuiltEntry(H, |H|, d.KeyOf(h));
    RebuildKeyIsKeyOf(d, e);
  }

  /** On a mesh whose half-edges each carry their own directed pair, the
      rebuild registers every half-edge under its key, the twinned ones too. */
  lemma RebuildRegistersAll(d: MeshData)
    requires d.LinksInRange() && d.DirectedPairsUnique()
    ensures Rebuildable(d.halfEdges)
    ensures Rebuilt(d).LinksInRange() && Rebuilt(d).MapSound() && Rebuilt(d).MapCovers()
    ensures forall h | 0 <= h < |d.halfEdges| :: Rebuilt(d).Registered(h)
  {
    RebuiltSound(d);
    forall h | 0 <= h < |d.halfEdges|
      ensures Rebuilt(d).Registered(h)
    {
      RebuiltRegistered(d, h);
    }
  }

  /** The rebuild keeps a well-formed mesh well formed. */
  lemma RebuildPreservesWellFormed(d: MeshData)
    requires d.WellFormed()
    ensures Rebuildable(d.halfEdges) && Rebuilt(d).WellFormed()
  {
    RebuildRegistersAll(d);
    var r := Rebuilt(d);
    SameLinksKeepFaces(d, r);
    SameLinksKeepTwins(d, r);
    SameLinksKeepKeys(d, r);
    SameLinksKeepOutgoing(d, r);
  }

  /** After the rebuild, the lookup as written, by the forward key alone,
      finds every half-edge by its endpoints. */
  lemma RebuiltLookupFindsAll(d: MeshData, h: nat)
    requires d.WellFormed() && h < |d.halfEdges|
    ensures Rebuildable(d.halfEdges) && Rebuilt(d).LinksInRange() && Rebuilt(d).MapSound()
    ensures d.FromVertex(h) < U32_MODULUS && d.halfEdges[h].to < U32_MODULUS
    ensures MeshQueries.FindHalfEdgeAsWritten(Rebuilt(d), d.FromVertex(h), d.halfEdges[h].to) == h
  {
    RebuildRegistersAll(d);
    d.EndpointsAreVertices(h);
  }

  // ---------------------------------------------------------------------
  // The checks of addFace, on the mesh state they read

  /** The checks of `addFace`, in order: too few vertices, a vertex that
      does not exist, a vertex repeated (the first pair the nested scan
      meets), and a side whose directed edge is already used or whose
      opposite half-edge already has a twin. */
  method CheckPolygon(d: MeshData, verts: seq<Index32>) returns (error: Option<FaceError>)
    requires d.LinksInRange() && d.MapSound()
    ensures error == CheckFace(d, verts)
  {
    var n := |verts|;
    if n < 3 {
      return Some(TooFewVertices(n));
    }
    var missing := FindMissingVertex(verts, |d.vertices|);
    if missing.Some? {
      return Some(InvalidVertexIndex(missing.value));
    }
    var duplicate := FindDuplicate(verts);
    if duplicate.Some? {
      return Some(DuplicateVertex(duplicate.value.0, duplicate.value.1));
    }
    var conflict := FindSideConflict(d, verts);
    if conflict.Some? {
      return Some(NonManifoldEdge(conflict.value));
    }
    return None;
  }

  /** The range check: the first position whose vertex does not exist. */
  method FindMissingVertex(verts: seq<Index32>, numVertices: nat) returns (r: Option<nat>)
    ensures r == FirstMissingVertex(verts, numVertices, 0)
  {
    for i := 0 to |verts|
      invariant FirstMissingVertex(verts, numVertices, i) == FirstMissingVertex(verts, numVertices, 0)
    {
      if verts[i] >= numVertices {
        return Some(i);
      }
    }
    return None;
  }

  /** The nested duplicate scan: the first pair of equal vertices. */
  method FindDuplicate(verts: seq<Index32>) returns (r: Option<(nat, nat)>)
    ensures r == FirstDuplicate(verts, 0)
  {
    for i := 0 to |verts|
      invariant FirstDuplicate(verts, i) == FirstDuplicate(verts, 0)
    {
      var j := FindRepeatOf(verts, i);
      if j.Some? {
        return Some((i, j.value));
      }
    }
    return None;
  }

  /** The inner loop of the duplicate scan: the first later position
      holding the vertex at `i`. */
  method FindRepeatOf(verts: seq<Index32>, i: nat) returns (r: Option<nat>)
    requires i < |verts|
    ensures r == FirstRepeatOf(verts, i, i + 1)
  {
    for j := i + 1 to |verts|
      invariant FirstRepeatOf(verts, i, j) == FirstRepeatOf(verts, i, i + 1)
    {
      if verts[i] == verts[j] {
        return Some(j);
      }
    }
    return None;
  }

  /** The directed-edge check: the first side that cannot be added. */
  method FindSideConflict(d: MeshData, verts: seq<Index32>) returns (r: Option<nat>)
    requires d.LinksInRange() && d.MapSound() && VerticesExist(d, verts)
    ensures r == FirstSideConflict(d, verts, 0)
  {
    var n := |verts|;
    for i := 0 to n
      invariant FirstSideConflict(d, verts, i) == FirstSideConflict(d, verts, 0)
    {
      SuccPredModulo(i, n);
      var v0, v1 := verts[i], verts[(i + 1) % n];
      var key, twinKey := DirectedEdgeKey(v0, v1), DirectedEdgeKey(v1, v0);
      if key in d.edgeMap {
        return Some(i);
      }
      if twinKey in d.edgeMap && d.halfEdges[d.edgeMap[twinKey]].twin != INVALID_INDEX {
        return Some(i);
      }
    }
    return None;
  }

  // ---------------------------------------------------------------------
  // The mesh object

  class Mesh {
    var vertices: seq<Vertex>
    var halfEdges: seq<HalfEdge>
    var edges: seq<Edge>
    var faces: seq<Face>
    var halfEdgeMap: map<DirectedKey, nat>
    const cache: MeshCache.TopologyCache

    /** The topology arrays and the map as one value. */
    function Data(): MeshData
      reads this
    {
      MeshData(vertices, halfEdges, edges, faces, halfEdgeMap)
    }

    /** The cache is consistent, and when it is marked built it was built
        from the mesh as it is now. */
    ghost predicate CacheCurrent()
      reads this, cache
    {
      cache.Valid() && (cache.valid ==> CacheWalks.Traversable(Data()) && cache.BuiltFrom(Data()))
    }

    function NumVertices(): nat reads this { |vertices| }
    function NumHalfEdges(): nat reads this { |halfEdges| }
    function NumEdges(): nat reads this { |edges| }
    function NumFaces(): nat reads this { |faces| }

    /** `isEmpty`: no vertices. */
    predicate IsEmpty() reads this { |vertices| == 0 }

    /** A new mesh is empty and its cache is not built. */
    constructor ()
      ensures Data() == EmptyMesh() && fresh(cache)
      ensures cache.Cleared() && CacheCurrent()
    {
      vertices, halfEdges, edges, faces, halfEdgeMap := [], [], [], [], map[];
      cache := new MeshCache.TopologyCache();
    }

    /** `addVertex`: append an isolated vertex and return its index. */
    method AddVertex() returns (idx: nat)
      modifies this, cache
      ensures idx == old(NumVertices()) && NumVertices() == idx + 1 && !IsEmpty()
      ensures Data() == WithVertex(old(Data()))
      ensures cache.Cleared() && CacheCurrent()
      ensures old(Data()).WellFormed() && old(NumVertices()) + 1 < INVALID_INDEX ==> Data().WellFormed()
    {
      if Data().WellFormed() && |vertices| + 1 < INVALID_INDEX {
        AddVertexPreservesWellFormed(Data());
      }
      idx := |vertices|;
      vertices := vertices + [DefaultVertex()];
      cache.Clear();
    }

    /** `clear`: every array and the map emptied, and the cache with them. */
    method Clear()
      modifies this, cache
      ensures Data() == EmptyMesh() && IsEmpty()
      ensures NumHalfEdges() == 0 && NumEdges() == 0 && NumFaces() == 0
      ensures cache.Cleared() && CacheCurrent()
    {
      vertices, halfEdges, edges, faces, halfEdgeMap := [], [], [], [], map[];
      cache.Clear();
    }

    /** `addFace`: check the polygon before changing anything, then build
        the face. A refused polygon gives the sentinel and leaves everything
        as it was. */
    method AddFace(verts: seq<Index32>) returns (face: nat)
      requires Data().LinksInRange() && Data().MapSound()
      modifies this, cache
      ensures FaceInsertion.AddFace(old(Data()), verts).Rejected? ==>
                face == INVALID_INDEX && Data() == old(Data()) && unchanged(cache)
      ensures FaceInsertion.AddFace(old(Data()), verts).Accepted? ==>
                && face == FaceInsertion.AddFace(old(Data()), verts).face
                && Data() == FaceInsertion.AddFace(old(Data()), verts).mesh
                && NumHalfEdges() == old(NumHalfEdges()) + |verts| && NumFaces() == old(NumFaces()) + 1
                && cache.Cleared() && CacheCurrent()
      ensures old(Data()).WellFormed() && Fits(old(Data()), verts) ==> Data().WellFormed()
    {
      if Data().WellFormed() && Fits(Data(), verts) {
        AddFacePreservesWellFormed(Data(), verts);
      }
      var error := CheckPolygon(Data(), verts);
      if error.Some? {
        return INVALID_INDEX;
      }
      CheckFaceAccepts(Data(), verts);
      face := BuildFace(verts);
      cache.Clear();
    }

    /** The construction part of `addFace` for a polygon that passed the
        checks: the creation loop, the loop that links the new half-edges
        into a cycle, then the face record. */
    method BuildFace(verts: seq<Index32>) returns (faceIdx: nat)
      requires |verts| >= 1 && VerticesExist(Data(), verts) && MapInRange(Data())
      modifies this
      ensures faceIdx == old(NumFaces()) && Data() == Assembled(old(Data()), verts)
    {
      var base := |halfEdges|;
      faceIdx := |faces|;
      CreateSides(verts, faceIdx);
      LinkSides(base, |verts|);
      faces := faces + [Face(base, |verts|)];
    }

    /** The creation loop of `addFace`: one half-edge per side. */
    method CreateSides(verts: seq<Index32>, f: nat)
      requires VerticesExist(Data(), verts) && MapInRange(Data())
      modifies this
      ensures Data() == CreatedHalfEdges(old(Data()), verts, f, |verts|)
    {
      ghost var d := Data();
      for i := 0 to |verts|
        invariant Data() == CreatedHalfEdges(d, verts, f, i)
      {
        CreateSide(verts, f, i);
      }
    }

    /** The link loop of `addFace`: the half-edge of side `i`, at `base + i`,
        gets the half-edges of sides `i + 1` and `i - 1` (mod n) as
        successor and predecessor. */
    method LinkSides(base: nat, n: nat)
      requires base + n <= |halfEdges|
      modifies this
      ensures Data() == old(Data()).(halfEdges := Linked(old(halfEdges), base, n, n))
    {
      for i := 0 to n
        invariant Data() == old(Data()).(halfEdges := Linked(old(halfEdges), base, n, i))
      {
        SuccPredModulo(i, n);
        var curr, next, prev := base + i, base + (i + 1) % n, base + (i + n - 1) % n;
        halfEdges := halfEdges[curr := halfEdges[curr].(next := next, prev := prev)];
      }
    }

    /** One iteration of the creation loop of `addFace`: append the
        half-edge of side `i`, give its tail an outgoing half-edge if it has
        none, then pair it with the registered opposite half-edge, or give
        it a new edge and register it. */
    method CreateSide(verts: seq<Index32>, f: nat, i: nat)
      requires i < |verts| && VerticesExist(Data(), verts) && MapInRange(Data())
      modifies this
      ensures Data() == CreateStep(old(Data()), verts, f, i)
    {
      SuccPredModulo(i, |verts|);
      var v0, v1 := verts[i], verts[(i + 1) % |verts|];
      var heIdx := |halfEdges|;
      halfEdges := halfEdges + [DefaultHalfEdge().(to := v1, face := f)];
      if vertices[v0].outgoing == INVALID_INDEX {
        vertices := vertices[v0 := vertices[v0].(outgoing := heIdx)];
      }
      var twinKey := DirectedEdgeKey(v1, v0);
      if twinKey in halfEdgeMap {
        var twinIdx := halfEdgeMap[twinKey];
        halfEdges := halfEdges[heIdx := halfEdges[heIdx].(twin := twinIdx)];
        halfEdges := halfEdges[twinIdx := halfEdges[twinIdx].(twin := heIdx)];
        halfEdges := halfEdges[heIdx := halfEdges[heIdx].(edge := halfEdges[twinIdx].edge)];
      } else {
        var edgeIdx := |edges|;
        edges := edges + [DefaultEdge()];
        halfEdges := halfEdges[heIdx := halfEdges[heIdx].(edge := edgeIdx)];
        halfEdgeMap := halfEdgeMap[DirectedEdgeKey(v0, v1) := heIdx];
      }
    }

    /** `rebuildEdgeMap`: empty the map, then register every half-edge that
        has a predecessor under its key, in index order. */
    method RebuildEdgeMap()
      requires Rebuildable(halfEdges)
      modifies this
      ensures Data() == Rebuilt(old(Data()))
      ensures old(Data()).WellFormed() ==> Data().WellFormed()
    {
      if Data().WellFormed() {
        RebuildPreservesWellFormed(Data());
      }
      halfEdgeMap := map[];
      for i := 0 to |halfEdges|
        invariant halfEdges == old(halfEdges)
        invariant Data() == old(Data()).(edgeMap := RebuiltMap(old(halfEdges), i))
      {
        var he := halfEdges[i];
        if he.prev == INVALID_INDEX {
          continue;
        }
        var v0, v1 := halfEdges[he.prev].to, he.to;
        halfEdgeMap := halfEdgeMap[DirectedEdgeKey(v0, v1) := i];
      }
    }

    /** `buildCache`: run the cache build over the current mesh. */
    method BuildCache()
      requires CacheWalks.Traversable(Data())
      modifies cache
      ensures CacheCurrent() && (cache.valid <==> !IsEmpty())
    {
      cache.Build(Data());
    }

    /** `getValence`: build the cache if it is not built, then read the
        vertex's valence from it. A cache marked built is read as it is,
        whatever happened to the mesh since. When the cache is current, on a
        well-formed mesh the answer is the number of edges at the vertex,
        kept to 16 bits. */
    method GetValence(v: nat) returns (valence: nat)
      requires CacheWalks.Traversable(Data()) && cache.Valid()
      modifies cache
      ensures valence == cache.GetValence(v)
      ensures old(cache.valid) ==> unchanged(cache)
      ensures old(CacheCurrent()) || !old(cache.valid) ==>
                && CacheCurrent() && (!IsEmpty() ==> cache.valid)
                && (Data().WellFormed() && v < |vertices| ==>
                      valence == |CacheSpec.MeshIncidentEdges(Data(), v)| % CacheSpec.VALENCE_MODULUS)
    {
      if !cache.IsValid() {
        cache.Build(Data());
      }
      valence := cache.GetValence(v);
      if CacheCurrent() && Data().WellFormed() && v < |vertices| {
        MeshCache.BuiltValence(cache, Data(), v);
      }
    }

    // The edits as mesh.cpp writes them: `invalidateCache` is never called,
    // so a cache built before the edit stays marked as built.

    /** `addVertex` as written: the vertex is appended and the cache is
        left as it was. */
    method AddVertexKeepingCache() returns (idx: nat)
      modifies this
      ensures idx == old(NumVertices()) && Data() == WithVertex(old(Data()))
    {
      idx := |vertices|;
      vertices := vertices + [DefaultVertex()];
    }

    /** `clear` as written: the arrays and the map are emptied and the
        cache is left as it was. */
    method ClearKeepingCache()
      modifies this
      ensures Data() == EmptyMesh()
    {
      vertices, halfEdges, edges, faces, halfEdgeMap := [], [], [], [], map[];
    }

    /** `addFace` as written, as far as the cache goes: the face is checked
        and built as `AddFace` does, and the cache is left as it was. */
    method AddFaceKeepingCache(verts: seq<Index32>) returns (face: nat)
      requires Data().LinksInRange() && Data().MapSound()
      modifies this
      ensures FaceInsertion.AddFace(old(Data()), verts).Rejected? ==>
                face == INVALID_INDEX && Data() == old(Data())
      ensures FaceInsertion.AddFace(old(Data()), verts).Accepted? ==>
                face == FaceInsertion.AddFace(old(Data()), verts).face
                && Data() == FaceInsertion.AddFace(old(Data()), verts).mesh
    {
      var error := CheckPolygon(Data(), verts);
      if error.Some? {
        return INVALID_INDEX;
      }
      CheckFaceAccepts(Data(), verts);
      face := BuildFace(verts);
    }
  }
}
