// Small meshes built face by face, the answers the queries give on them,
// and the inputs on which the code as written and the corrected model
// part ways.

module MeshScenarios {
  import opened MeshTypes
  import opened HalfEdgeTopology
  import opened FaceInsertion
  import opened FaceAsWritten
  import opened MeshQueries
  import MeshValidation
  import CacheWalks
  import CacheSpec
  import Csr
  import MeshCache
  import ControlMesh

  const NONE: nat := INVALID_INDEX

  /** Four isolated vertices. */
  function Corners(): MeshData
  {
    MeshData(seq(4, _ => DefaultVertex()), [], [], [], map[])
  }

  lemma CornersWellFormed()
    ensures Corners().WellFormed()
  {
    CornersLaidOut();
    CornersMapped();
    CornersUnlinked();
  }

  lemma CornersLaidOut()
    ensures Corners().LinksInRange() && Corners().FacesLaidOut() && Corners().HalfEdgesInTheirFaces()
    ensures Corners().TwinsPaired() && Corners().EdgesUsed() && Corners().EdgesShared()
  {
  }

  lemma CornersMapped()
    ensures Corners().LinksInRange() && Corners().MapSound() && Corners().MapCovers()
    ensures Corners().DirectedPairsUnique() && Corners().OppositesPaired()
  {
  }

  lemma CornersUnlinked()
    ensures Corners().LinksInRange() && Corners().NoLoops() && Corners().OutgoingSound()
  {
  }

  /** The triangle (0, 1, 2) over the four corners. */
  function Triangle(): MeshData
  {
    MeshData(
      [Vertex(0, 0.0, 0), Vertex(1, 0.0, 0), Vertex(2, 0.0, 0), DefaultVertex()],
      [HalfEdge(1, 1, 2, NONE, 0, 0), HalfEdge(2, 2, 0, NONE, 1, 0), HalfEdge(0, 0, 1, NONE, 2, 0)],
      [DefaultEdge(), DefaultEdge(), DefaultEdge()],
      [Face(0, 3)],
      map[DirectedKey(0, 1) := 0, DirectedKey(1, 2) := 1, DirectedKey(2, 0) := 2])
  }

  /** Triangles (0, 1, 2) and (0, 2, 3) sharing the edge 0-2. */
  function Strip(): MeshData
  {
    MeshData(
      [Vertex(0, 0.0, 0), Vertex(1, 0.0, 0), Vertex(2, 0.0, 0), Vertex(5, 0.0, 0)],
      [HalfEdge(1, 1, 2, NONE, 0, 0), HalfEdge(2, 2, 0, NONE, 1, 0), HalfEdge(0, 0, 1, 3, 2, 0),
       HalfEdge(2, 4, 5, 2, 2, 1), HalfEdge(3, 5, 3, NONE, 3, 1), HalfEdge(0, 3, 4, NONE, 4, 1)],
      [DefaultEdge(), DefaultEdge(), DefaultEdge(), DefaultEdge(), DefaultEdge()],
      [Face(0, 3), Face(3, 3)],
      map[DirectedKey(0, 1) := 0, DirectedKey(1, 2) := 1, DirectedKey(2, 0) := 2,
          DirectedKey(2, 3) := 4, DirectedKey(3, 0) := 5])
  }

  /** The strip closed around vertex 0 by the triangle (0, 3, 1). */
  function Fan(): MeshData
  {
    MeshData(
      [Vertex(0, 0.0, 0), Vertex(1, 0.0, 0), Vertex(2, 0.0, 0), Vertex(5, 0.0, 0)],
      [HalfEdge(1, 1, 2, 8, 0, 0), HalfEdge(2, 2, 0, NONE, 1, 0), HalfEdge(0, 0, 1, 3, 2, 0),
       HalfEdge(2, 4, 5, 2, 2, 1), HalfEdge(3, 5, 3, NONE, 3, 1), HalfEdge(0, 3, 4, 6, 4, 1),
       HalfEdge(3, 7, 8, 5, 4, 2), HalfEdge(1, 8, 6, NONE, 5, 2), HalfEdge(0, 6, 7, 0, 0, 2)],
      [DefaultEdge(), DefaultEdge(), DefaultEdge(), DefaultEdge(), DefaultEdge(), DefaultEdge()],
      [Face(0, 3), Face(3, 3), Face(6, 3)],
      map[DirectedKey(0, 1) := 0, DirectedKey(1, 2) := 1, DirectedKey(2, 0) := 2,
          DirectedKey(2, 3) := 4, DirectedKey(3, 0) := 5, DirectedKey(3, 1) := 7])
  }

  // ---------------------------------------------------------------------
  // Building the triangle

  /** The state of the creation loop after `i` sides of the triangle. */
  function TriangleSides(i: nat): MeshData
    requires i <= 3
  {
    if i == 0 then Corners()
    else if i == 1 then
      MeshData([Vertex(0, 0.0, 0), DefaultVertex(), DefaultVertex(), DefaultVertex()],
               [HalfEdge(1, NONE, NONE, NONE, 0, 0)], [DefaultEdge()], [],
               map[DirectedKey(0, 1) := 0])
    else if i == 2 then
      MeshData([Vertex(0, 0.0, 0), Vertex(1, 0.0, 0), DefaultVertex(), DefaultVertex()],
               [HalfEdge(1, NONE, NONE, NONE, 0, 0), HalfEdge(2, NONE, NONE, NONE, 1, 0)],
               [DefaultEdge(), DefaultEdge()], [],
               map[DirectedKey(0, 1) := 0, DirectedKey(1, 2) := 1])
    else
      MeshData([Vertex(0, 0.0, 0), Vertex(1, 0.0, 0), Vertex(2, 0.0, 0), DefaultVertex()],
               [HalfEdge(1, NONE, NONE, NONE, 0, 0), HalfEdge(2, NONE, NONE, NONE, 1, 0),
                HalfEdge(0, NONE, NONE, NONE, 2, 0)],
               [DefaultEdge(), DefaultEdge(), DefaultEdge()], [],
               map[DirectedKey(0, 1) := 0, DirectedKey(1, 2) := 1, DirectedKey(2, 0) := 2])
  }

  lemma TriangleSide(i: nat)
    requires i < 3
    ensures VerticesExist(TriangleSides(i), [0, 1, 2]) && MapInRange(TriangleSides(i))
    ensures CreateStep(TriangleSides(i), [0, 1, 2], 0, i) == TriangleSides(i + 1)
  {
  }

  lemma TriangleCreated()
    ensures VerticesExist(Corners(), [0, 1, 2]) && MapInRange(Corners())
    ensures CreatedHalfEdges(Corners(), [0, 1, 2], 0, 3) == TriangleSides(3)
  {
    TriangleSide(0);
    TriangleSide(1);
    TriangleSide(2);
  }

  lemma CornersSound()
    ensures Corners().LinksInRange() && Corners().MapSound()
  {
  }

  lemma TriangleSideFree(i: nat)
    requires i < 3
    ensures Corners().LinksInRange() && Corners().MapSound() && VerticesExist(Corners(), [0, 1, 2])
    ensures !SideConflicts(Corners(), [0, 1, 2], i)
  {
    CornersSound();
  }

  lemma TriangleChecks()
    ensures Corners().LinksInRange() && Corners().MapSound()
    ensures CheckFace(Corners(), [0, 1, 2]).None?
  {
    TriangleSideFree(0);
    TriangleSideFree(1);
    TriangleSideFree(2);
    assert Distinct([0, 1, 2]);
    assert VerticesExist(Corners(), [0, 1, 2]);
    CheckFaceAccepts(Corners(), [0, 1, 2]);
  }

  lemma TriangleLinked()
    ensures Linked(TriangleSides(3).halfEdges, 0, 3, 3) == Triangle().halfEdges
  {
  }

  /** addFace builds the triangle. */
  lemma TriangleBuilt()
    ensures Corners().LinksInRange() && Corners().MapSound()
    ensures AddFace(Corners(), [0, 1, 2]) == Accepted(Triangle(), 0)
  {
    TriangleChecks();
    TriangleAssembled();
  }

  lemma TriangleAssembled()
    ensures VerticesExist(Corners(), [0, 1, 2]) && MapInRange(Corners())
    ensures Assembled(Corners(), [0, 1, 2]) == Triangle()
  {
    TriangleCreated();
    TriangleLinked();
  }

  lemma TriangleWellFormed()
    ensures Triangle().WellFormed()
  {
    CornersWellFormed();
    TriangleBuilt();
    AddFacePreservesWellFormed(Corners(), [0, 1, 2]);
  }

  // ---------------------------------------------------------------------
  // Building the strip: the second triangle shares the edge 0-2

  function StripSides(i: nat): MeshData
    requires i <= 3
  {
    var t := Triangle();
    var H := [HalfEdge(1, 1, 2, NONE, 0, 0), HalfEdge(2, 2, 0, NONE, 1, 0), HalfEdge(0, 0, 1, 3, 2, 0),
              HalfEdge(2, NONE, NONE, 2, 2, 1)];
    if i == 0 then t
    else if i == 1 then t.(halfEdges := H)
    else if i == 2 then
      t.(halfEdges := H + [HalfEdge(3, NONE, NONE, NONE, 3, 1)], edges := t.edges + [DefaultEdge()],
         edgeMap := t.edgeMap[DirectedKey(2, 3) := 4])
    else
      t.(vertices := t.vertices[3 := Vertex(5, 0.0, 0)],
         halfEdges := H + [HalfEdge(3, NONE, NONE, NONE, 3, 1), HalfEdge(0, NONE, NONE, NONE, 4, 1)],
         edges := t.edges + [DefaultEdge(), DefaultEdge()],
         edgeMap := t.edgeMap[DirectedKey(2, 3) := 4][DirectedKey(3, 0) := 5])
  }

  lemma StripSide(i: nat)
    requires i < 3
    ensures VerticesExist(StripSides(i), [0, 2, 3]) && MapInRange(StripSides(i))
    ensures CreateStep(StripSides(i), [0, 2, 3], 1, i) == StripSides(i + 1)
  {
  }

  lemma StripCreated()
    ensures VerticesExist(Triangle(), [0, 2, 3]) && MapInRange(Triangle())
    ensures CreatedHalfEdges(Triangle(), [0, 2, 3], 1, 3) == StripSides(3)
  {
    StripSide(0);
    StripSide(1);
    StripSide(2);
  }

  lemma TriangleSound()
    ensures Triangle().LinksInRange() && Triangle().MapSound()
  {
    TriangleWellFormed();
  }

  lemma StripSideFree(i: nat)
    requires i < 3
    ensures Triangle().LinksInRange() && Triangle().MapSound() && VerticesExist(Triangle(), [0, 2, 3])
    ensures !SideConflicts(Triangle(), [0, 2, 3], i)
  {
    TriangleSound();
  }

  lemma StripChecks()
    ensures Triangle().LinksInRange() && Triangle().MapSound()
    ensures CheckFace(Triangle(), [0, 2, 3]).None?
  {
    StripSideFree(0);
    StripSideFree(1);
    StripSideFree(2);
    assert Distinct([0, 2, 3]);
    assert VerticesExist(Triangle(), [0, 2, 3]);
    CheckFaceAccepts(Triangle(), [0, 2, 3]);
  }

  lemma StripLinked()
    ensures Linked(StripSides(3).halfEdges, 3, 3, 3) == Strip().halfEdges
  {
  }

  /** addFace adds the second triangle to the first. */
  lemma StripBuilt()
    ensures Triangle().LinksInRange() && Triangle().MapSound()
    ensures AddFace(Triangle(), [0, 2, 3]) == Accepted(Strip(), 1)
  {
    StripChecks();
    StripAssembled();
  }

  lemma StripAssembled()
    ensures VerticesExist(Triangle(), [0, 2, 3]) && MapInRange(Triangle())
    ensures Assembled(Triangle(), [0, 2, 3]) == Strip()
  {
    StripCreated();
    StripLinked();
  }

  lemma StripWellFormed()
    ensures Strip().WellFormed()
  {
    TriangleWellFormed();
    StripBuilt();
    AddFacePreservesWellFormed(Triangle(), [0, 2, 3]);
  }

  // ---------------------------------------------------------------------
  // Building the fan: the third triangle closes the ring around vertex 0

  function FanSides(i: nat): MeshData
    requires i <= 3
  {
    var t := Strip();
    var H := t.halfEdges[5 := HalfEdge(0, 3, 4, 6, 4, 1)] + [HalfEdge(3, NONE, NONE, 5, 4, 2)];
    if i == 0 then t
    else if i == 1 then t.(halfEdges := H)
    else if i == 2 then
      t.(halfEdges := H + [HalfEdge(1, NONE, NONE, NONE, 5, 2)], edges := t.edges + [DefaultEdge()],
         edgeMap := t.edgeMap[DirectedKey(3, 1) := 7])
    else
      t.(halfEdges := H[0 := HalfEdge(1, 1, 2, 8, 0, 0)]
                      + [HalfEdge(1, NONE, NONE, NONE, 5, 2), HalfEdge(0, NONE, NONE, 0, 0, 2)],
         edges := t.edges + [DefaultEdge()],
         edgeMap := t.edgeMap[DirectedKey(3, 1) := 7])
  }

  lemma FanSide(i: nat)
    requires i < 3
    ensures VerticesExist(FanSides(i), [0, 3, 1]) && MapInRange(FanSides(i))
    ensures CreateStep(FanSides(i), [0, 3, 1], 2, i) == FanSides(i + 1)
  {
  }

  lemma FanCreated()
    ensures VerticesExist(Strip(), [0, 3, 1]) && MapInRange(Strip())
    ensures CreatedHalfEdges(Strip(), [0, 3, 1], 2, 3) == FanSides(3)
  {
    FanSide(0);
    FanSide(1);
    FanSide(2);
  }

  lemma StripSound()
    ensures Strip().LinksInRange() && Strip().MapSound()
  {
    StripWellFormed();
  }

  lemma FanSideFree(i: nat)
    requires i < 3
    ensures Strip().LinksInRange() && Strip().MapSound() && VerticesExist(Strip(), [0, 3, 1])
    ensures !SideConflicts(Strip(), [0, 3, 1], i)
  {
    StripSound();
  }

  lemma FanChecks()
    ensures Strip().LinksInRange() && Strip().MapSound()
    ensures CheckFace(Strip(), [0, 3, 1]).None?
  {
    FanSideFree(0);
    FanSideFree(1);
    FanSideFree(2);
    assert Distinct([0, 3, 1]);
    assert VerticesExist(Strip(), [0, 3, 1]);
    CheckFaceAccepts(Strip(), [0, 3, 1]);
  }

  lemma FanLinked()
    ensures Linked(FanSides(3).halfEdges, 6, 3, 3) == Fan().halfEdges
  {
  }

  /** addFace adds the third triangle to the strip. */
  lemma FanBuilt()
    ensures Strip().LinksInRange() && Strip().MapSound()
    ensures AddFace(Strip(), [0, 3, 1]) == Accepted(Fan(), 2)
  {
    FanChecks();
    FanAssembled();
  }

  lemma FanAssembled()
    ensures VerticesExist(Strip(), [0, 3, 1]) && MapInRange(Strip())
    ensures Assembled(Strip(), [0, 3, 1]) == Fan()
  {
    FanCreated();
    FanLinked();
  }

  lemma FanWellFormed()
    ensures Fan().WellFormed()
  {
    StripWellFormed();
    FanBuilt();
    AddFacePreservesWellFormed(Strip(), [0, 3, 1]);
  }

  // ---------------------------------------------------------------------
  // Vertex queries on the strip and the fan

  lemma StripBounded()
    ensures LinksBounded(Strip())
  {
    StripSound();
    InRangeBounded(Strip());
  }

  /** Vertex 0 of the strip has the neighbours 1, 2 and 3 and lies on the
      border. The valence walk as written stops one spoke short. */
  lemma StripVertexZero()
    ensures LinksBounded(Strip())
    ensures BoundaryQuery(Strip(), 0) == Some(true)
    ensures VertexValenceAsWritten(Strip(), 0) == Some(2)
    ensures VertexValence(Strip(), 0) == Some(3)
  {
    StripBounded();
    assert ForwardSpokes(Strip(), 0, 0, 0) == Opened(1);
    assert BackwardSpokes(Strip(), 3, 5) == Some(BackwardEnd(0, true));
    assert BackwardSpokes(Strip(), 0, 6) == Some(BackwardEnd(1, true));
  }

  lemma FanBounded()
    ensures LinksBounded(Fan())
  {
    FanWellFormed();
    InRangeBounded(Fan());
  }

  /** Once the fan closes the ring around vertex 0, the vertex is interior
      and both valence walks count its three neighbours. */
  lemma FanVertexZero()
    ensures LinksBounded(Fan())
    ensures BoundaryQuery(Fan(), 0) == Some(false)
    ensures VertexValenceAsWritten(Fan(), 0) == Some(3) && VertexValence(Fan(), 0) == Some(3)
  {
    FanBounded();
    assert ForwardSpokes(Fan(), 0, 3, 2) == Closed(3);
    assert ForwardSpokes(Fan(), 0, 0, 0) == Closed(3);
    assert BoundaryWalk(Fan(), 0, 3, 7) == Some(false);
    assert BoundaryWalk(Fan(), 0, 6, 8) == Some(false);
    assert BoundaryWalk(Fan(), 0, 0, 9) == Some(false);
  }

  // ---------------------------------------------------------------------
  // The cache's one-ring walk on the strip

  /** Vertex 2 of the strip has the neighbours 0, 3 and 1. The forward walk
      from its outgoing half-edge 2 meets 0 and 3 and stops at the border
      half-edge 4. The backward walk as written starts from half-edge 4,
      finds the twin of its predecessor already visited and stops, so 1 is
      never written; started from the outgoing half-edge it reaches 1. */
  lemma StripOneRingAsWritten()
    ensures CacheWalks.Traversable(Strip())
    ensures CacheWalks.OneRingWalk(Strip(), 2) == [0, 3]
    ensures CacheWalks.OneRingWalkFromStart(Strip(), 2) == [0, 3, 1]
  {
    StripSound();
    CacheWalks.LinkedTraversable(Strip());
    var w := CacheWalks.ForwardFrom(Strip(), 2, 2, {});
    assert CacheWalks.ForwardFrom(Strip(), 2, 4, {2}) == CacheWalks.Forward([3], 4, true, {2, 4});
    assert w == CacheWalks.Forward([0, 3], 4, true, {2, 4});
    assert CacheWalks.BackwardFrom(Strip(), 4, {2, 4}) == [];
    assert CacheWalks.BackwardFrom(Strip(), 2, {2, 4}) == [1];
  }

  /** Vertex 0 of the strip is the centre of the one-ring test. The forward
      walk from its outgoing half-edge 0 meets 1 and stops there, on the
      border; both backward walks then start from half-edge 0, meet 2 over
      the shared edge and end at the border vertex 3. */
  lemma StripOneRingCentre()
    ensures CacheWalks.Traversable(Strip())
    ensures CacheWalks.OneRingWalk(Strip(), 0) == [1, 2, 3]
    ensures CacheWalks.OneRingWalkFromStart(Strip(), 0) == [1, 2, 3]
  {
    StripSound();
    CacheWalks.LinkedTraversable(Strip());
    assert CacheWalks.ForwardFrom(Strip(), 0, 0, {}) == CacheWalks.Forward([1], 0, true, {0});
    assert CacheWalks.BackwardFrom(Strip(), 3, {0, 3}) == [3];
    assert CacheWalks.BackwardFrom(Strip(), 0, {0}) == [2, 3];
  }

  /** The edges at vertex 0 of the strip: 0-1, 0-2 and 0-3. */
  lemma StripEdgesAtCentre()
    ensures CacheWalks.Traversable(Strip())
    ensures |CacheSpec.MeshIncidentEdges(Strip(), 0)| == 3
  {
    StripTraversable();
    var d := Strip();
    forall h | 0 <= h < |d.halfEdges|
      ensures (CacheWalks.Tail(d, h) == 0 || d.halfEdges[h].to == 0) <==> h in {0, 2, 3, 5}
    {
    }
    assert CacheSpec.MeshIncidentEdges(d, 0) == {0, 2, 4} by {
      assert d.halfEdges[0].edge == 0 && d.halfEdges[2].edge == 2;
      assert d.halfEdges[3].edge == 2 && d.halfEdges[5].edge == 4;
    }
  }

  lemma StripTraversable()
    ensures CacheWalks.Traversable(Strip())
  {
    StripSound();
    CacheWalks.LinkedTraversable(Strip());
  }

  lemma StripCounted()
    ensures Strip().LinksInRange() && Strip().TwinsPaired() && Strip().EdgesShared()
    ensures Strip().EdgesUsed() && Strip().NoLoops()
  {
    StripWellFormed();
  }

  /** A cache built from the strip passes the one-ring test: the centre's
      ring is as long as its valence, 3, and holds the neighbours 1, 2 and
      3. */
  lemma StripCacheCentre(c: MeshCache.TopologyCache)
    requires CacheWalks.Traversable(Strip()) && c.BuiltFrom(Strip())
    ensures c.Valid() && c.GetValence(0) == 3
    ensures c.GetVertexOneRing(0) == [1, 2, 3]
    ensures |c.GetVertexOneRing(0)| == c.GetValence(0)
    ensures forall u | u in {1, 2, 3} :: u in c.GetVertexOneRing(0)
  {
    StripCounted();
    StripEdgesAtCentre();
    MeshCache.BuiltValence(c, Strip(), 0);
    StripOneRingCentre();
    MeshCache.BuiltOneRing(c, Strip(), 0);
    var ring := c.GetVertexOneRing(0);
    assert ring[0] == 1 && ring[1] == 2 && ring[2] == 3;
  }

  // ---------------------------------------------------------------------
  // The cache across an edit

  lemma TriangleTraversable()
    ensures CacheWalks.Traversable(Triangle())
  {
    TriangleSound();
    CacheWalks.LinkedTraversable(Triangle());
  }

  lemma TriangleCounted()
    ensures Triangle().LinksInRange() && Triangle().TwinsPaired() && Triangle().EdgesShared()
    ensures Triangle().EdgesUsed() && Triangle().NoLoops()
  {
    TriangleWellFormed();
  }

  /** The edges at vertex 0 of the triangle: 0-1 and 0-2. */
  lemma TriangleEdgesAtCorner()
    ensures CacheWalks.Traversable(Triangle())
    ensures |CacheSpec.MeshIncidentEdges(Triangle(), 0)| == 2
  {
    TriangleTraversable();
    var d := Triangle();
    forall h | 0 <= h < |d.halfEdges|
      ensures (CacheWalks.Tail(d, h) == 0 || d.halfEdges[h].to == 0) <==> h in {0, 2}
    {
    }
    assert CacheSpec.MeshIncidentEdges(d, 0) == {0, 2} by {
      assert d.halfEdges[0].edge == 0 && d.halfEdges[2].edge == 2;
    }
  }

  /** A cache built from the triangle gives vertex 0 the valence 2. */
  lemma TriangleCacheCorner(c: MeshCache.TopologyCache)
    requires CacheWalks.Traversable(Triangle()) && c.BuiltFrom(Triangle())
    ensures c.GetValence(0) == 2
  {
    TriangleCounted();
    TriangleEdgesAtCorner();
    MeshCache.BuiltValence(c, Triangle(), 0);
  }

  /** As written, adding the second triangle of the strip after the cache
      was built leaves the cache marked as built, and `getValence(0)` keeps
      answering the triangle's 2 although vertex 0 now has three edges. */
  method StaleValence(m: ControlMesh.Mesh) returns (valence: nat)
    requires m.Data() == Triangle() && m.CacheCurrent() && m.cache.valid
    modifies m, m.cache
    ensures m.Data() == Strip() && CacheWalks.Traversable(Strip()) && m.cache.valid
    ensures valence == 2 && |CacheSpec.MeshIncidentEdges(Strip(), 0)| == 3
  {
    TriangleTraversable();
    TriangleCacheCorner(m.cache);
    TriangleSound();
    StripBuilt();
    var face := m.AddFaceKeepingCache([0, 2, 3]);
    StripEdgesAtCentre();
    valence := m.GetValence(0);
  }

  /** With the cache cleared on every edit, the same sequence answers 3. */
  method FreshValence(m: ControlMesh.Mesh) returns (valence: nat)
    requires m.Data() == Triangle() && m.CacheCurrent()
    modifies m, m.cache
    ensures m.Data() == Strip() && m.cache.valid
    ensures valence == 3
  {
    AddStripSecondFace(m);
    StripTraversable();
    valence := m.GetValence(0);
    StripCacheCentre(m.cache);
  }

  /** Adds `{0,2,3}` to the triangle through the cache-clearing `AddFace`. */
  method AddStripSecondFace(m: ControlMesh.Mesh)
    requires m.Data() == Triangle() && m.CacheCurrent()
    modifies m, m.cache
    ensures m.Data() == Strip() && m.cache.Valid() && !m.cache.valid
  {
    TriangleSound();
    StripBuilt();
    var face := m.AddFace([0, 2, 3]);
  }

  // ---------------------------------------------------------------------
  // findHalfEdge in the direction that was not registered

  /** The strip registers half-edge 2 (from 2 to 0) for the shared edge;
      its twin 3 runs from 0 to 2, and the lookup as written misses it. */
  lemma StripLookupAsWritten()
    ensures Strip().LinksInRange() && Strip().MapSound()
    ensures FindHalfEdgeAsWritten(Strip(), 0, 2) == INVALID_INDEX
    ensures FindHalfEdgeAsWritten(Strip(), 2, 0) == 2
  {
    StripSound();
    assert DirectedEdgeKey(0, 2) !in Strip().edgeMap;
  }

  /** The corrected lookup finds both directions of the shared edge. */
  lemma StripLookupBothWays()
    ensures Strip().LinksInRange() && Strip().MapSound() && Strip().TwinsPaired()
    ensures Strip().FindHalfEdge(0, 2) == 3 && Strip().FindHalfEdge(2, 0) == 2
  {
    StripPaired();
    assert DirectedEdgeKey(0, 2) !in Strip().edgeMap;
    assert Strip().edgeMap[DirectedEdgeKey(2, 0)] == 2;
  }

  lemma StripPaired()
    ensures Strip().LinksInRange() && Strip().MapSound() && Strip().TwinsPaired()
  {
    StripWellFormed();
  }

  // ---------------------------------------------------------------------
  // addFace as written: a repeated directed edge is accepted

  /** The creation loop as written for the triangle (0, 1, 3) added to the
      first triangle, which already has a half-edge from 0 to 1. */
  function RepeatSides(i: nat): MeshData
    requires i <= 3
  {
    var t := Triangle();
    var H := t.halfEdges + [HalfEdge(1, NONE, NONE, NONE, 3, 1)];
    if i == 0 then t
    else if i == 1 then
      t.(halfEdges := H, edges := t.edges + [DefaultEdge()], edgeMap := t.edgeMap[DirectedKey(0, 1) := 3])
    else if i == 2 then
      t.(halfEdges := H + [HalfEdge(3, NONE, NONE, NONE, 4, 1)], edges := t.edges + [DefaultEdge(), DefaultEdge()],
         edgeMap := t.edgeMap[DirectedKey(0, 1) := 3][DirectedKey(1, 3) := 4])
    else
      t.(vertices := t.vertices[3 := Vertex(5, 0.0, 0)],
         halfEdges := H + [HalfEdge(3, NONE, NONE, NONE, 4, 1), HalfEdge(0, NONE, NONE, NONE, 5, 1)],
         edges := t.edges + [DefaultEdge(), DefaultEdge(), DefaultEdge()],
         edgeMap := t.edgeMap[DirectedKey(0, 1) := 3][DirectedKey(1, 3) := 4][DirectedKey(3, 0) := 5])
  }

  /** The mesh addFace leaves: two half-edges from 0 to 1, on two
      different edges, and only the new one registered. */
  function RepeatMesh(): MeshData
  {
    var c := RepeatSides(3);
    c.(halfEdges := [HalfEdge(1, 1, 2, NONE, 0, 0), HalfEdge(2, 2, 0, NONE, 1, 0), HalfEdge(0, 0, 1, NONE, 2, 0),
                     HalfEdge(1, 4, 5, NONE, 3, 1), HalfEdge(3, 5, 3, NONE, 4, 1), HalfEdge(0, 3, 4, NONE, 5, 1)],
       faces := c.faces + [Face(3, 3)])
  }

  lemma RepeatSide(i: nat)
    requires i < 3
    ensures VerticesExist(RepeatSides(i), [0, 1, 3]) && MapInRange(RepeatSides(i))
    ensures !StepAborts(RepeatSides(i), [0, 1, 3], i)
    ensures CreateStep(RepeatSides(i), [0, 1, 3], 1, i) == RepeatSides(i + 1)
  {
  }

  lemma RepeatRun()
    ensures VerticesExist(Triangle(), [0, 1, 3]) && MapInRange(Triangle())
    ensures RunAsWritten(Triangle(), [0, 1, 3], 1, 3, 0) == Finished(RepeatSides(3))
  {
    RepeatSide(0);
    RepeatSide(1);
    RepeatSide(2);
    assert RunAsWritten(RepeatSides(2), [0, 1, 3], 1, 3, 2) == Finished(RepeatSides(3));
    assert RunAsWritten(RepeatSides(1), [0, 1, 3], 1, 3, 1) == Finished(RepeatSides(3));
  }

  /** addFace as written accepts the triangle (0, 1, 3) next to (0, 1, 2)
      although both contain the directed edge 0 -> 1. */
  lemma RepeatAcceptedAsWritten()
    ensures VerticesExist(Triangle(), [0, 1, 3]) && MapInRange(Triangle())
    ensures AddFaceAsWritten(Triangle(), [0, 1, 3]) == AsWrittenResult(RepeatMesh(), 1)
  {
    RepeatRun();
    assert Linked(RepeatSides(3).halfEdges, 3, 3, 3) == RepeatMesh().halfEdges;
  }

  /** The accepted mesh is broken: half-edges 0 and 3 have the same key. */
  lemma RepeatMeshBroken()
    ensures RepeatMesh().LinksInRange()
    ensures RepeatMesh().KeyOf(0) == RepeatMesh().KeyOf(3)
    ensures !RepeatMesh().DirectedPairsUnique() && !RepeatMesh().WellFormed()
  {
    assert RepeatMesh().LinksInRange();
  }

  /** The corrected checks refuse the polygon at its first side. */
  lemma RepeatRejected()
    ensures Triangle().LinksInRange() && Triangle().MapSound()
    ensures AddFace(Triangle(), [0, 1, 3]) == Rejected(NonManifoldEdge(0))
  {
    TriangleSound();
    assert Distinct([0, 1, 3]);
    assert FirstMissingVertex([0, 1, 3], 4, 0).None?;
    assert FirstDuplicate([0, 1, 3], 0).None?;
    assert SideConflicts(Triangle(), [0, 1, 3], 0);
  }

  // ---------------------------------------------------------------------
  // addFace as written: a refused polygon leaves a dangling twin

  /** The state after the first side of (1, 0, 2) added to the strip: it
      pairs with half-edge 0. */
  function RollbackFirstSide(): MeshData
  {
    var t := Strip();
    t.(halfEdges := t.halfEdges[0 := HalfEdge(1, 1, 2, 6, 0, 0)] + [HalfEdge(0, NONE, NONE, 0, 0, 2)])
  }

  /** What addFace leaves after refusing (1, 0, 2) at its second side: the
      new half-edge is gone, but half-edge 0 still names it as its twin. */
  function RollbackMesh(): MeshData
  {
    var t := Strip();
    t.(halfEdges := t.halfEdges[0 := HalfEdge(1, 1, 2, 6, 0, 0)])
  }

  lemma RollbackRun()
    ensures VerticesExist(Strip(), [1, 0, 2]) && MapInRange(Strip())
    ensures RunAsWritten(Strip(), [1, 0, 2], 2, 6, 0) == Aborted(RollbackMesh())
  {
    assert !StepAborts(Strip(), [1, 0, 2], 0);
    assert CreateStep(Strip(), [1, 0, 2], 2, 0) == RollbackFirstSide();
    assert StepAborts(RollbackFirstSide(), [1, 0, 2], 1);
    assert AbortedState(RollbackFirstSide(), [1, 0, 2], 6, 1) == RollbackMesh();
  }

  /** addFace as written refuses (1, 0, 2) but does not restore the strip:
      the twin link it already wrote points past the half-edge array. */
  lemma RollbackAsWritten()
    ensures VerticesExist(Strip(), [1, 0, 2]) && MapInRange(Strip())
    ensures AddFaceAsWritten(Strip(), [1, 0, 2]) == AsWrittenResult(RollbackMesh(), INVALID_INDEX)
    ensures RollbackMesh() != Strip() && !RollbackMesh().LinksInRange()
  {
    RollbackRun();
    assert !RollbackMesh().LinksOk(RollbackMesh().halfEdges[0]);
  }

  /** The corrected checks refuse the polygon at its second side, before
      anything changes. */
  lemma RollbackRejected()
    ensures Strip().LinksInRange() && Strip().MapSound()
    ensures AddFace(Strip(), [1, 0, 2]) == Rejected(NonManifoldEdge(1))
  {
    RollbackSides();
    assert FirstMissingVertex([1, 0, 2], 4, 0).None?;
    assert FirstDuplicate([1, 0, 2], 0).None?;
  }

  lemma RollbackSides()
    ensures Strip().LinksInRange() && Strip().MapSound() && VerticesExist(Strip(), [1, 0, 2])
    ensures !SideConflicts(Strip(), [1, 0, 2], 0) && SideConflicts(Strip(), [1, 0, 2], 1)
  {
    StripSound();
  }

  /** The damage the partial rollback leaves is what `validate` is there to
      catch: the first half-edge's twin link no longer exists. */
  lemma RollbackFailsValidation()
    ensures !MeshValidation.Valid(RollbackMesh())
  {
    assert !MeshValidation.HalfEdgeChecked(RollbackMesh(), 0);
  }
}
