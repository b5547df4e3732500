// The directed-edge lookup after addFace: it finds every side of the
// new face (mesh.cpp findHalfEdge over the keys addFace registers).

module FaceLookup {
  import opened MeshTypes
  import opened HalfEdgeTopology
  import opened FaceInsertion

  /** After an accepted face, the lookup finds the half-edge of each side
      in the mesh `r` that addFace returns. */
  lemma AddFaceFindsSides(d: MeshData, verts: seq<Index32>) returns (r: MeshData)
    requires d.WellFormed() && Fits(d, verts) && CheckFace(d, verts).None?
    ensures AddFace(d, verts).Accepted? && r == AddFace(d, verts).mesh
    ensures r.LinksInRange() && r.MapSound() && r.TwinsPaired()
    ensures FindsSides(r, verts, |d.halfEdges|)
  {
    r := AddFaceKeepsLookup(d, verts);
    FindsPolygonSides(r, verts, |d.halfEdges|);
  }

  /** The lookup finds, for each side of `verts`, the half-edge at `base`
      plus the side's position. */
  ghost predicate FindsSides(r: MeshData, verts: seq<Index32>, base: nat)
    requires r.LinksInRange() && r.MapSound() && r.TwinsPaired()
  {
    forall j | 0 <= j < |verts| :: r.FindHalfEdge(Tail(verts, j), Head(verts, j)) == base + j
  }

  /** What the lookup relies on: the parts of the mesh invariant it reads,
      and the half-edges of a polygon at `base`, side by side. */
  ghost predicate HoldsPolygon(r: MeshData, verts: seq<Index32>, base: nat)
  {
    && r.LinksInRange() && r.TwinsPaired() && r.MapSound() && r.MapCovers() && r.DirectedPairsUnique()
    && base + |verts| <= |r.halfEdges|
    && forall j | 0 <= j < |verts| ::
         r.FromVertex(base + j) == Tail(verts, j) && r.halfEdges[base + j].to == Head(verts, j)
  }

  /** In a mesh holding the half-edges of a polygon at `base`, the lookup
      finds the half-edge of each side. */
  lemma FindsPolygonSides(r: MeshData, verts: seq<Index32>, base: nat)
    requires HoldsPolygon(r, verts, base)
    ensures r.LinksInRange() && r.MapSound() && r.TwinsPaired()
    ensures FindsSides(r, verts, base)
  {
    forall j | 0 <= j < |verts|
      ensures r.FindHalfEdge(Tail(verts, j), Head(verts, j)) == base + j
    {
      FindsSideAt(r, verts, base, j);
    }
  }

  lemma FindsSideAt(r: MeshData, verts: seq<Index32>, base: nat, j: nat)
    requires HoldsPolygon(r, verts, base) && j < |verts|
    ensures r.FindHalfEdge(Tail(verts, j), Head(verts, j)) == base + j
  {
    var h, a, b := base + j, Tail(verts, j), Head(verts, j);
    assert h < |r.halfEdges|;
    assert r.FromVertex(h) == a;
    assert r.halfEdges[h].to == b;
    FindsHalfEdgeAt(r, h, a, b);
  }

  /** The parts of the mesh invariant the lookup relies on survive addFace,
      and every half-edge the mesh had before is still found from its own
      tail and head. */
  lemma AddFaceKeepsLookup(d: MeshData, verts: seq<Index32>) returns (r: MeshData)
    requires d.WellFormed() && Fits(d, verts) && CheckFace(d, verts).None?
    ensures AddFace(d, verts).Accepted? && r == AddFace(d, verts).mesh
    ensures HoldsPolygon(r, verts, |d.halfEdges|)
    ensures FindsOlder(d, r)
  {
    AddFacePreservesWellFormed(d, verts);
    AddFaceSideEnds(d, verts);
    r := AddFace(d, verts).mesh;
    AddFaceFindsOlder(d, verts);
  }

  /** After an accepted face the older half-edges are still found. */
  lemma AddFaceFindsOlder(d: MeshData, verts: seq<Index32>)
    requires d.WellFormed() && Fits(d, verts) && CheckFace(d, verts).None?
    ensures AddFace(d, verts).Accepted? && FindsOlder(d, AddFace(d, verts).mesh)
  {
    AddFacePreservesWellFormed(d, verts);
    AddFaceLayout(d, verts);
    var r := AddFace(d, verts).mesh;
    assert r.WellFormed();
    FindsOlderOf(d, r);
  }

  /** A mesh that keeps every older half-edge, twins aside, finds each of
      them from its endpoints. */
  lemma FindsOlderOf(d: MeshData, r: MeshData)
    requires d.LinksInRange() && |d.halfEdges| <= |r.halfEdges|
    requires r.LinksInRange() && r.TwinsPaired() && r.MapSound() && r.MapCovers() && r.DirectedPairsUnique()
    requires forall h | 0 <= h < |d.halfEdges| :: r.halfEdges[h].(twin := d.halfEdges[h].twin) == d.halfEdges[h]
    ensures FindsOlder(d, r)
  {
    forall h | 0 <= h < |d.halfEdges|
      ensures r.FindHalfEdge(d.FromVertex(h), d.halfEdges[h].to) == h
    {
      OlderFoundAt(d, r, h);
    }
  }

  /** Each half-edge of `d` is found in `r` from its endpoints in `d`. */
  ghost predicate FindsOlder(d: MeshData, r: MeshData)
  {
    && d.LinksInRange() && r.LinksInRange() && r.MapSound() && r.TwinsPaired()
    && |d.halfEdges| <= |r.halfEdges|
    && forall h | 0 <= h < |d.halfEdges| :: r.FindHalfEdge(d.FromVertex(h), d.halfEdges[h].to) == h
  }

  /** A half-edge whose links `r` keeps, apart from its twin, is found in
      `r` from its endpoints in `d`. */
  lemma OlderFoundAt(d: MeshData, r: MeshData, h: nat)
    requires d.LinksInRange() && h < |d.halfEdges| <= |r.halfEdges|
    requires r.LinksInRange() && r.TwinsPaired() && r.MapSound() && r.MapCovers() && r.DirectedPairsUnique()
    requires r.halfEdges[h].(twin := d.halfEdges[h].twin) == d.halfEdges[h]
    requires r.halfEdges[d.halfEdges[h].prev].(twin := d.halfEdges[d.halfEdges[h].prev].twin) == d.halfEdges[d.halfEdges[h].prev]
    ensures r.FindHalfEdge(d.FromVertex(h), d.halfEdges[h].to) == h
  {
    r.FindHalfEdgeFinds(h);
  }
}
