// The topology cache object: the flat arrays and compressed-sparse-row
// tables the build passes produce, held in fields, and the bounds-checked
// queries answered from them. What the stored arrays mean for a
// well-formed mesh is stated by the lemmas after the class.

module MeshCache {
  import opened MeshTypes
  import opened HalfEdgeTopology
  import opened CacheWalks
  import opened CacheSpec
  import opened Csr
  import opened CachePasses

  /** Bytes per stored element: 16-bit valences, 8-bit flags, 32-bit
      indices and offsets, and a pair of 32-bit indices per edge. */
  const VALENCE_BYTES: nat := 2
  const FLAG_BYTES: nat := 1
  const INDEX_BYTES: nat := 4
  const PAIR_BYTES: nat := 8

  /** One compressed-sparse-row relation: a flat backing array and one
      offset per element plus a closing sentinel. */
  datatype CsrArrays = CsrArrays(flat: seq<nat>, offsets: seq<nat>)
  {
    /** Empty, as after a clear, or consistent with the backing array. */
    ghost predicate Fits()
    {
      SpanTable(flat, offsets)
    }

    /** The relation holds the lists `L`, with offsets the prefix sums of
        `counts`. */
    ghost predicate Built(counts: seq<nat>, L: seq<seq<nat>>)
    {
      IsOffsets(offsets, counts) && Holds(offsets, flat, L)
    }

    /** Elements, bytes: 32-bit entries and 32-bit offsets. */
    function Bytes(): nat
    {
      INDEX_BYTES * (|flat| + |offsets|)
    }
  }

  /** The per-vertex arrays: 16-bit valences and 8-bit border flags. */
  datatype VertexArrays = VertexArrays(valences: seq<nat>, boundaryFlags: seq<nat>)

  /** The per-edge arrays: endpoint pairs and 8-bit border flags. */
  datatype EdgeArrays = EdgeArrays(vertices: seq<EdgeEnds>, boundaryFlags: seq<nat>)

  const NO_CSR: CsrArrays := CsrArrays([], [])

  class TopologyCache {
    var vertexData: VertexArrays
    var oneRings: CsrArrays
    var vertexFaces: CsrArrays
    var edgeData: EdgeArrays
    var edgeFaces: CsrArrays
    var faceVertices: CsrArrays
    var faceEdges: CsrArrays
    var numBoundaryVertices: nat
    var numBoundaryEdges: nat
    var valid: bool

    /** The arrays and statistics as one value. */
    function Arrays(): CacheArrays
      reads this
    {
      CacheArrays(vertexData, edgeData, oneRings, vertexFaces, edgeFaces, faceVertices, faceEdges,
                  numBoundaryVertices, numBoundaryEdges)
    }

    /** Every offset table is empty or fits its backing array, and the
        build flag agrees with the public validity test. */
    ghost predicate Valid()
      reads this
    {
      Arrays().Fits() && (valid <==> vertexData.valences != [])
    }

    /** The state of a new or cleared cache: every array empty, the
        statistics zero and the flag down. */
    ghost predicate Cleared()
      reads this
    {
      Arrays() == NO_ARRAYS && !valid
    }

    /** The state after building from a mesh with at least one vertex:
        every array is what its pass computes from the mesh. */
    ghost predicate BuiltFrom(d: MeshData)
      requires Traversable(d)
      reads this
    {
      valid && |d.vertices| > 0 && Arrays().From(d)
    }

    /** A new cache is empty. */
    constructor ()
      ensures Cleared() && Valid()
    {
      vertexData, edgeData := VertexArrays([], []), EdgeArrays([], []);
      oneRings, vertexFaces, edgeFaces, faceVertices, faceEdges := NO_CSR, NO_CSR, NO_CSR, NO_CSR, NO_CSR;
      numBoundaryVertices, numBoundaryEdges, valid := 0, 0, false;
    }

    /** `clear`: empty every array, zero the statistics, lower the flag. */
    method Clear()
      modifies this
      ensures Cleared() && Valid()
    {
      vertexData, edgeData := VertexArrays([], []), EdgeArrays([], []);
      oneRings, vertexFaces, edgeFaces, faceVertices, faceEdges := NO_CSR, NO_CSR, NO_CSR, NO_CSR, NO_CSR;
      numBoundaryVertices, numBoundaryEdges, valid := 0, 0, false;
    }

    /** `build`: clear, stop there for a mesh without vertices, otherwise
        run the passes in order and raise the flag. */
    method Build(d: MeshData)
      requires Traversable(d)
      modifies this
      ensures Valid()
      ensures |d.vertices| == 0 ==> Cleared()
      ensures |d.vertices| > 0 ==> BuiltFrom(d)
    {
      Clear();
      if |d.vertices| == 0 {
        return;
      }
      var a := RunPasses(d);
      Publish(a);
    }

    /** The end of a build: store what the passes computed and raise the flag. */
    method Publish(a: CacheArrays)
      modifies this
      ensures Arrays() == a && vertexData == a.vertexData && valid
    {
      vertexData, edgeData, numBoundaryVertices, numBoundaryEdges := a.vertexData, a.edgeData, a.numBoundaryVertices, a.numBoundaryEdges;
      oneRings, vertexFaces, edgeFaces := a.oneRings, a.vertexFaces, a.edgeFaces;
      faceVertices, faceEdges := a.faceVertices, a.faceEdges;
      valid := true;
    }

    /** `isValid`: some vertex data is stored. */
    function IsValid(): (b: bool)
      reads this
      requires Valid()
      ensures b == valid
    {
      vertexData.valences != []
    }

    /** `getValence`: 0 past the end. */
    function GetValence(v: nat): nat
      reads this
    {
      if v < |vertexData.valences| then vertexData.valences[v] else 0
    }

    /** `isBoundaryVertex`: false past the end. */
    function IsBoundaryVertex(v: nat): bool
      reads this
    {
      v < |vertexData.boundaryFlags| && vertexData.boundaryFlags[v] != 0
    }

    /** `isBoundaryEdge`: false past the end. */
    function IsBoundaryEdge(e: nat): bool
      reads this
    {
      e < |edgeData.boundaryFlags| && edgeData.boundaryFlags[e] != 0
    }

    /** `getEdgeVertices`: the sentinel pair past the end. */
    function GetEdgeVertices(e: nat): EdgeEnds
      reads this
    {
      if e < |edgeData.vertices| then edgeData.vertices[e] else Unset()
    }

    /** The span accessors, with the guard as intended. */
    function GetVertexOneRing(v: nat): seq<nat>
      reads this
      requires Valid()
    {
      SpanOf(oneRings.flat, oneRings.offsets, v)
    }

    function GetVertexFaces(v: nat): seq<nat>
      reads this
      requires Valid()
    {
      SpanOf(vertexFaces.flat, vertexFaces.offsets, v)
    }

    function GetEdgeFaces(e: nat): seq<nat>
      reads this
      requires Valid()
    {
      SpanOf(edgeFaces.flat, edgeFaces.offsets, e)
    }

    function GetFaceVertices(f: nat): seq<nat>
      reads this
      requires Valid()
    {
      SpanOf(faceVertices.flat, faceVertices.offsets, f)
    }

    function GetFaceEdges(f: nat): seq<nat>
      reads this
      requires Valid()
    {
      SpanOf(faceEdges.flat, faceEdges.offsets, f)
    }

    /** The statistics. */
    function NumVertices(): nat
      reads this
    {
      |vertexData.valences|
    }

    function NumEdges(): nat
      reads this
    {
      |edgeData.vertices|
    }

    function NumFaces(): nat
      reads this
    {
      if faceVertices.offsets == [] then 0 else |faceVertices.offsets| - 1
    }

    function NumBoundaryVertices(): nat
      reads this
    {
      numBoundaryVertices
    }

    function NumBoundaryEdges(): nat
      reads this
    {
      numBoundaryEdges
    }

    /** `memoryUsage`: the bytes of every array. */
    function MemoryUsage(): nat
      reads this
    {
      VALENCE_BYTES * |vertexData.valences| + FLAG_BYTES * |vertexData.boundaryFlags|
      + oneRings.Bytes() + vertexFaces.Bytes()
      + PAIR_BYTES * |edgeData.vertices| + FLAG_BYTES * |edgeData.boundaryFlags|
      + edgeFaces.Bytes() + faceVertices.Bytes() + faceEdges.Bytes()
    }
  }

  /** Everything the build stores: per-vertex and per-edge arrays, the
      five relations and the two border counts. */
  datatype CacheArrays = CacheArrays(
    vertexData: VertexArrays, edgeData: EdgeArrays,
    oneRings: CsrArrays, vertexFaces: CsrArrays, edgeFaces: CsrArrays,
    faceVertices: CsrArrays, faceEdges: CsrArrays,
    numBoundaryVertices: nat, numBoundaryEdges: nat)
  {
    /** Every relation is empty or consistent with its backing array. */
    ghost predicate Fits()
    {
      oneRings.Fits() && vertexFaces.Fits() && edgeFaces.Fits() && faceVertices.Fits() && faceEdges.Fits()
    }

    /** Every array is what its pass computes from `d`. */
    ghost predicate From(d: MeshData)
      requires Traversable(d)
    {
      Computed(d, vertexData, edgeData, numBoundaryVertices, numBoundaryEdges)
      && Linked(d, vertexData.valences, oneRings, vertexFaces, edgeFaces, faceVertices, faceEdges)
    }
  }

  /** The arrays of a new or cleared cache. */
  const NO_ARRAYS: CacheArrays :=
    CacheArrays(VertexArrays([], []), EdgeArrays([], []), NO_CSR, NO_CSR, NO_CSR, NO_CSR, NO_CSR, 0, 0)

  /** Phases 1 to 8 of the build, for a mesh with at least one vertex. */
  method RunPasses(d: MeshData) returns (a: CacheArrays)
    requires Traversable(d) && |d.vertices| > 0
    ensures a.From(d) && a.Fits() && a.vertexData.valences != []
  {
    var vd, ed, nbv, nbe, faceCounts := ElementPasses(d);
    var rings, vf, ef, fv, fe := IncidencePasses(d, vd.valences, faceCounts);
    a := CacheArrays(vd, ed, rings, vf, ef, fv, fe, nbv, nbe);
  }

  /** What the element passes compute: the edge endpoints and border
      flags, the valences and vertex border flags, and the two border
      counts. */
  ghost predicate Computed(d: MeshData, vd: VertexArrays, ed: EdgeArrays, nbv: nat, nbe: nat)
    requires Traversable(d)
  {
    && ed == EdgeArrays(EdgeEndsAfter(d, |d.halfEdges|), EdgeBorderFlags(d))
    && nbe == Count(ed.boundaryFlags, 1)
    && vd == VertexArrays(
         Valences(ed.vertices, |d.vertices|),
         VertexBorderFlags(ed.vertices, ed.boundaryFlags, |d.vertices|))
    && nbv == Count(vd.boundaryFlags, 1)
  }

  /** What the offset and fill passes compute: the five relations. */
  ghost predicate Linked(d: MeshData, valences: seq<nat>, rings: CsrArrays, vf: CsrArrays, ef: CsrArrays,
                         fv: CsrArrays, fe: CsrArrays)
    requires Traversable(d)
  {
    && rings.Built(valences, OneRingLists(d))
    && vf.Built(VertexFaceCounts(d), VertexFaceLists(d))
    && ef.Built(EdgeFaceCounts(d), EdgeFaceLists(d))
    && fv.Built(FaceValences(d), FaceVertexLists(d))
    && fe.Built(FaceValences(d), FaceEdgeLists(d))
  }

  /** Phases 1 to 3 of the build: the half-edge pass, the valence pass and
      the vertex border pass, with the border counts. */
  method ElementPasses(d: MeshData) returns (vd: VertexArrays, ed: EdgeArrays, nbv: nat, nbe: nat, faceCounts: seq<nat>)
    requires Traversable(d)
    ensures Computed(d, vd, ed, nbv, nbe) && faceCounts == EdgeFaceCounts(d)
  {
    var ends, border;
    ends, border, faceCounts := ScanHalfEdges(d);
    nbe := Count(border, 1);
    var valences := CountValences(ends, |d.vertices|);
    var flags := MarkBorderVertices(ends, border, |d.vertices|);
    nbv := Count(flags, 1);
    vd, ed := VertexArrays(valences, flags), EdgeArrays(ends, border);
  }

  /** Phases 4 to 8 of the build: the vertex-face counts, the five offset
      tables, and the one-ring and face fills. */
  method IncidencePasses(d: MeshData, valences: seq<nat>, faceCounts: seq<nat>)
    returns (rings: CsrArrays, vf: CsrArrays, ef: CsrArrays, fv: CsrArrays, fe: CsrArrays)
    requires Traversable(d) && |valences| == |d.vertices| && faceCounts == EdgeFaceCounts(d)
    ensures Linked(d, valences, rings, vf, ef, fv, fe)
    ensures rings.Fits() && vf.Fits() && ef.Fits() && fv.Fits() && fe.Fits()
  {
    var visits := CountVertexFaces(d);
    var orOff := BuildOffsets(valences);
    var vfOff := BuildOffsets(visits);
    var efOff := BuildOffsets(faceCounts);
    var fvOff := BuildOffsets(FaceValences(d));
    var feOff := BuildOffsets(FaceValences(d));
    var ringFlat := FillOneRings(d, orOff);
    var fvFlat, feFlat, vfFlat, efFlat := FillFaces(d, fvOff, feOff, vfOff, efOff);
    rings, vf, ef := CsrArrays(ringFlat, orOff), CsrArrays(vfFlat, vfOff), CsrArrays(efFlat, efOff);
    fv, fe := CsrArrays(fvFlat, fvOff), CsrArrays(feFlat, feOff);
  }

  // ------------------------------------------- what the queries answer

  /** A new or cleared cache answers every query with nothing: valence 0,
      no border, the sentinel pair, empty spans, zero counts and zero bytes. */
  lemma ClearedQueries(c: TopologyCache, i: nat)
    requires c.Cleared()
    ensures c.Valid() && !c.IsValid()
    ensures c.GetValence(i) == 0 && !c.IsBoundaryVertex(i) && !c.IsBoundaryEdge(i)
    ensures c.GetEdgeVertices(i) == Unset()
    ensures c.GetVertexOneRing(i) == [] && c.GetVertexFaces(i) == [] && c.GetEdgeFaces(i) == []
    ensures c.GetFaceVertices(i) == [] && c.GetFaceEdges(i) == []
    ensures c.NumVertices() == 0 && c.NumEdges() == 0 && c.NumFaces() == 0
    ensures c.NumBoundaryVertices() == 0 && c.NumBoundaryEdges() == 0
    ensures c.MemoryUsage() == 0
  {
    assert c.Arrays() == NO_ARRAYS;
  }

  /** After a build the stored valence of a vertex is the number of edges
      incident to it, kept to 16 bits; past the last vertex it is 0. */
  lemma BuiltValence(c: TopologyCache, d: MeshData, v: nat)
    requires d.LinksInRange() && d.TwinsPaired() && d.EdgesShared() && d.EdgesUsed() && d.NoLoops()
    requires Traversable(d) && c.BuiltFrom(d)
    ensures v < |d.vertices| ==> c.GetValence(v) == |MeshIncidentEdges(d, v)| % VALENCE_MODULUS
    ensures v >= |d.vertices| ==> c.GetValence(v) == 0
  {
    assert c.Arrays().From(d);
    if v < |d.vertices| {
      ValenceCountsEdges(d, v);
    }
  }

  /** A vertex is flagged as on the border exactly when some half-edge
      without a twin starts or ends at it. */
  lemma BuiltBoundaryVertex(c: TopologyCache, d: MeshData, v: nat)
    requires d.LinksInRange() && d.TwinsPaired() && d.EdgesShared()
    requires Traversable(d) && c.BuiltFrom(d)
    ensures c.IsBoundaryVertex(v) <==>
              v < |d.vertices| && exists h | 0 <= h < |d.halfEdges| ::
                d.halfEdges[h].twin == INVALID_INDEX && (Tail(d, h) == v || d.halfEdges[h].to == v)
  {
    assert c.Arrays().From(d);
    VertexFlagMeaning(d, c.vertexData.boundaryFlags, v);
  }

  lemma VertexFlagMeaning(d: MeshData, flags: seq<nat>, v: nat)
    requires d.LinksInRange() && d.TwinsPaired() && d.EdgesShared() && Traversable(d)
    requires flags == VertexBorderFlags(EdgeEndsAfter(d, |d.halfEdges|), EdgeBorderFlags(d), |d.vertices|)
    ensures (v < |flags| && flags[v] != 0) <==>
              v < |d.vertices| && exists h | 0 <= h < |d.halfEdges| ::
                d.halfEdges[h].twin == INVALID_INDEX && (Tail(d, h) == v || d.halfEdges[h].to == v)
  {
    if v < |d.vertices| {
      FlaggedVertexOnBorder(d, v);
      if exists h | 0 <= h < |d.halfEdges| ::
           d.halfEdges[h].twin == INVALID_INDEX && (Tail(d, h) == v || d.halfEdges[h].to == v) {
        var h :| 0 <= h < |d.halfEdges| &&
                 d.halfEdges[h].twin == INVALID_INDEX && (Tail(d, h) == v || d.halfEdges[h].to == v);
        BorderVertexFlagged(d, v, h);
      }
    }
  }

  /** The endpoints stored for the edge of any half-edge are that
      half-edge's tail and head, smaller first; past the last edge the
      sentinel pair is returned. */
  lemma BuiltEdgeVertices(c: TopologyCache, d: MeshData, h: nat, e: nat)
    requires d.LinksInRange() && d.TwinsPaired() && d.EdgesShared()
    requires Traversable(d) && c.BuiltFrom(d)
    ensures h < |d.halfEdges| ==> c.GetEdgeVertices(d.halfEdges[h].edge) == Canonical(Tail(d, h), d.halfEdges[h].to)
    ensures e >= |d.edges| ==> c.GetEdgeVertices(e) == Unset()
  {
    assert c.Arrays().From(d);
    if h < |d.halfEdges| {
      EdgeEndsMeaning(d, h);
    }
  }

  /** An edge is flagged as on the border exactly when its half-edges have
      no twin, and then one face lists it, otherwise two; the span lists the
      faces whose walks cross it. */
  lemma BuiltBoundaryEdge(c: TopologyCache, d: MeshData, e: nat)
    requires d.LinksInRange() && d.EdgesUsed() && d.EdgesShared() && d.TwinsPaired()
    requires Traversable(d) && c.BuiltFrom(d) && e < |d.edges|
    ensures forall h | 0 <= h < |d.halfEdges| && d.halfEdges[h].edge == e ::
              (c.IsBoundaryEdge(e) <==> d.halfEdges[h].twin == INVALID_INDEX)
    ensures c.Valid() && |c.GetEdgeFaces(e)| == if c.IsBoundaryEdge(e) then 1 else 2
    ensures forall j | 0 <= j < |c.GetEdgeFaces(e)| :: c.GetEdgeFaces(e)[j] == Cell(EdgeFaceLists(d)[e], j)
  {
    assert c.Arrays().From(d);
    EdgeFlagMeaning(d, e);
    BuiltSpan(c.edgeFaces, EdgeFaceCounts(d), EdgeFaceLists(d), e);
  }

  lemma EdgeFlagMeaning(d: MeshData, e: nat)
    requires d.LinksInRange() && d.EdgesUsed() && d.EdgesShared() && d.TwinsPaired() && e < |d.edges|
    ensures forall h | 0 <= h < |d.halfEdges| && d.halfEdges[h].edge == e ::
              (EdgeBorderFlags(d)[e] != 0 <==> d.halfEdges[h].twin == INVALID_INDEX)
    ensures EdgeFaceCounts(d)[e] == if EdgeBorderFlags(d)[e] != 0 then 1 else 2
  {
    EdgeFaceCount(d, e);
  }

  /** The vertex span of a face is its polygon, in the order given when it
      was added; past the last face the span is empty. */
  lemma BuiltFaceVertices(c: TopologyCache, d: MeshData, f: nat)
    requires d.LinksInRange() && d.FacesLaidOut()
    requires Traversable(d) && c.BuiltFrom(d)
    ensures c.Valid()
    ensures f >= |d.faces| ==> c.GetFaceVertices(f) == []
    ensures f < |d.faces| ==>
              |c.GetFaceVertices(f)| == d.faces[f].valence
              && d.faces[f].edge + d.faces[f].valence <= |d.halfEdges|
              && forall i | 0 <= i < d.faces[f].valence ::
                   c.GetFaceVertices(f)[i] == Tail(d, d.faces[f].edge + i)
  {
    var a := c.Arrays();
    assert a.From(d);
    var fv := a.faceVertices;
    assert fv.Built(FaceValences(d), FaceVertexLists(d));
    if f < |d.faces| {
      FaceVerticesInOrder(d, f);
      SlotHoldsList(fv.offsets, fv.flat, FaceVertexLists(d), f);
    }
  }

  /** The edge span of a face is the edges of its sides, in order. */
  lemma BuiltFaceEdges(c: TopologyCache, d: MeshData, f: nat)
    requires d.LinksInRange() && d.FacesLaidOut()
    requires Traversable(d) && c.BuiltFrom(d)
    ensures c.Valid()
    ensures f >= |d.faces| ==> c.GetFaceEdges(f) == []
    ensures f < |d.faces| ==>
              |c.GetFaceEdges(f)| == d.faces[f].valence
              && d.faces[f].edge + d.faces[f].valence <= |d.halfEdges|
              && forall i | 0 <= i < d.faces[f].valence ::
                   c.GetFaceEdges(f)[i] == d.halfEdges[d.faces[f].edge + i].edge
  {
    var a := c.Arrays();
    assert a.From(d);
    var fe := a.faceEdges;
    assert fe.Built(FaceValences(d), FaceEdgeLists(d));
    if f < |d.faces| {
      FaceEdgesInOrder(d, f);
      SlotHoldsList(fe.offsets, fe.flat, FaceEdgeLists(d), f);
    }
  }

  /** The face span of a vertex lists exactly the faces whose polygon
      visits it, each once per visit. */
  lemma BuiltVertexFaces(c: TopologyCache, d: MeshData, v: nat, f: nat)
    requires Traversable(d) && c.BuiltFrom(d) && v < |d.vertices|
    ensures c.Valid()
    ensures |c.GetVertexFaces(v)| == multiset(Flatten(FaceVertexLists(d)))[v]
    ensures f in c.GetVertexFaces(v) <==> f < |d.faces| && v in FaceVertexLists(d)[f]
  {
    assert c.Arrays().From(d);
    VertexFacesMeaning(d, c.vertexFaces, v, f);
  }

  lemma VertexFacesMeaning(d: MeshData, vf: CsrArrays, v: nat, f: nat)
    requires Traversable(d) && vf.Built(VertexFaceCounts(d), VertexFaceLists(d)) && v < |d.vertices|
    ensures vf.Fits()
    ensures |SpanOf(vf.flat, vf.offsets, v)| == multiset(Flatten(FaceVertexLists(d)))[v]
    ensures f in SpanOf(vf.flat, vf.offsets, v) <==> f < |d.faces| && v in FaceVertexLists(d)[f]
  {
    var K := FaceVertexLists(d);
    ScatterAllLength(|d.vertices|, K, |d.faces|, v);
    ScatterAllMember(|d.vertices|, K, |d.faces|, v, f);
    assert K[..|d.faces|] == K;
    BuiltSpan(vf, VertexFaceCounts(d), VertexFaceLists(d), v);
  }

  /** A built relation answers element `k` with a span as wide as its
      count, holding its list cut to that width and padded with zeros. */
  lemma BuiltSpan(r: CsrArrays, counts: seq<nat>, L: seq<seq<nat>>, k: nat)
    requires r.Built(counts, L) && k < |L|
    ensures r.Fits() && k < |counts|
    ensures |SpanOf(r.flat, r.offsets, k)| == counts[k]
    ensures counts[k] == |L[k]| ==> SpanOf(r.flat, r.offsets, k) == L[k]
    ensures forall j | 0 <= j < counts[k] :: SpanOf(r.flat, r.offsets, k)[j] == Cell(L[k], j)
  {
    SlotHoldsList(r.offsets, r.flat, L, k);
  }

  /** The one-ring span of a vertex is as wide as its stored valence and
      holds the neighbours met walking round the vertex, zero-padded where
      the walk found fewer. */
  lemma BuiltOneRing(c: TopologyCache, d: MeshData, v: nat)
    requires Traversable(d) && c.BuiltFrom(d) && v < |d.vertices|
    ensures c.Valid()
    ensures |c.GetVertexOneRing(v)| == c.GetValence(v)
    ensures forall j | 0 <= j < |c.GetVertexOneRing(v)| ::
              c.GetVertexOneRing(v)[j] == Cell(OneRingWalkFromStart(d, v), j)
  {
    var a := c.Arrays();
    assert a.From(d);
    var r := a.oneRings;
    assert r.Built(a.vertexData.valences, OneRingLists(d));
    SlotHoldsList(r.offsets, r.flat, OneRingLists(d), v);
  }

  /** Every entry the walk wrote into a one-ring span is a vertex joined to
      `v` by an edge. */
  lemma BuiltOneRingAdjacent(c: TopologyCache, d: MeshData, v: nat)
    requires d.LinksInRange() && d.FacesLaidOut() && d.HalfEdgesInTheirFaces() && d.TwinsPaired()
    requires d.OutgoingSound() && v < |d.vertices|
    requires Traversable(d) && c.BuiltFrom(d)
    ensures c.Valid()
    ensures forall j | 0 <= j < |c.GetVertexOneRing(v)| && j < |OneRingWalkFromStart(d, v)| ::
              Adjacent(d, v, c.GetVertexOneRing(v)[j])
  {
    BuiltOneRing(c, d, v);
    OneRingFromStartNeighbours(d, v);
  }

  /** After a build the element counts are the mesh's, and the border
      counts are the numbers of flagged vertices and edges. */
  lemma BuiltCounts(c: TopologyCache, d: MeshData)
    requires Traversable(d) && c.BuiltFrom(d)
    ensures c.NumVertices() == |d.vertices| && c.NumEdges() == |d.edges| && c.NumFaces() == |d.faces|
    ensures c.NumBoundaryVertices() == |set v | 0 <= v < |d.vertices| && c.IsBoundaryVertex(v)|
    ensures c.NumBoundaryEdges() == |set e | 0 <= e < |d.edges| && c.IsBoundaryEdge(e)|
  {
    assert c.Arrays().From(d);
    assert c.faceVertices.Built(FaceValences(d), FaceVertexLists(d));
    var vflags, eflags := c.vertexData.boundaryFlags, c.edgeData.boundaryFlags;
    CountOnes(vflags);
    CountOnes(eflags);
    assert (set v | 0 <= v < |vflags| && vflags[v] != 0) == (set v | 0 <= v < |d.vertices| && c.IsBoundaryVertex(v));
    assert (set e | 0 <= e < |eflags| && eflags[e] != 0) == (set e | 0 <= e < |d.edges| && c.IsBoundaryEdge(e));
  }

  /** In a table of 0/1 flags, the ones are the nonzero entries. */
  lemma CountOnes(s: seq<nat>)
    requires forall i | 0 <= i < |s| :: s[i] <= 1
    ensures Count(s, 1) == |set i | 0 <= i < |s| && s[i] != 0|
  {
    assert (set i | 0 <= i < |s| && s[i] == 1) == (set i | 0 <= i < |s| && s[i] != 0);
  }

  /** After a build the byte count is fixed by the mesh sizes and the
      totals of the five relations' counts. */
  lemma BuiltMemory(c: TopologyCache, d: MeshData)
    requires Traversable(d) && c.BuiltFrom(d)
    ensures c.MemoryUsage() ==
              (VALENCE_BYTES + FLAG_BYTES + 2 * INDEX_BYTES) * |d.vertices|
              + (PAIR_BYTES + FLAG_BYTES + INDEX_BYTES) * |d.edges|
              + 2 * INDEX_BYTES * |d.faces| + 5 * INDEX_BYTES
              + INDEX_BYTES * (Sum(c.vertexData.valences) + Sum(VertexFaceCounts(d)) + Sum(EdgeFaceCounts(d))
                               + 2 * Sum(FaceValences(d)))
  {
    var a := c.Arrays();
    assert a.From(d);
    BuiltBytes(a.oneRings, a.vertexData.valences, OneRingLists(d));
    BuiltBytes(a.vertexFaces, VertexFaceCounts(d), VertexFaceLists(d));
    BuiltBytes(a.edgeFaces, EdgeFaceCounts(d), EdgeFaceLists(d));
    BuiltBytes(a.faceVertices, FaceValences(d), FaceVertexLists(d));
    BuiltBytes(a.faceEdges, FaceValences(d), FaceEdgeLists(d));
  }

  /** A built relation takes one entry per counted item and one offset per
      element plus the sentinel. */
  lemma BuiltBytes(r: CsrArrays, counts: seq<nat>, L: seq<seq<nat>>)
    requires r.Built(counts, L)
    ensures r.Bytes() == INDEX_BYTES * (Sum(counts) + |counts| + 1)
  {
    OffsetsMonotone(r.offsets, counts);
  }
}
