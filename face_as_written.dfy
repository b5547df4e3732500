// addFace exactly as mesh.cpp writes it, next to the corrected insertion
// of FaceInsertion: the creation loop refuses a side only when the
// opposite half-edge is registered and already paired, it never looks for
// the same directed edge, and when it refuses it shrinks the half-edge
// array back but keeps everything else the loop has already changed.

module FaceAsWritten {
  import opened MeshTypes
  import opened HalfEdgeTopology
  import opened FaceInsertion

  /** What the creation loop ends with: every side created, or a side
      refused with the state the partial rollback leaves. */
  datatype CreationRun = Finished(state: MeshData) | Aborted(state: MeshData)

  /** The mesh addFace leaves and the face index it returns (the sentinel
      on failure). */
  datatype AsWrittenResult = AsWrittenResult(mesh: MeshData, face: nat)

  /** The loop's only refusal: the opposite half-edge of side `i` is
      registered and already has a twin. */
  predicate StepAborts(c: MeshData, verts: seq<Index32>, i: nat)
    requires i < |verts| && MapInRange(c)
  {
    ReverseKey(verts, i) in c.edgeMap
    && c.halfEdges[c.edgeMap[ReverseKey(verts, i)]].twin != INVALID_INDEX
  }

  /** The state after a refused side: the half-edge was pushed and may
      already be the tail's outgoing half-edge, then the half-edge array
      is cut back to where the face started; edges, twins, outgoing links
      and map entries of the earlier sides stay. */
  function AbortedState(c: MeshData, verts: seq<Index32>, base: nat, i: nat): (r: MeshData)
    requires i < |verts| && VerticesExist(c, verts) && base <= |c.halfEdges|
    ensures |r.halfEdges| == base && r.edges == c.edges && r.edgeMap == c.edgeMap && r.faces == c.faces
    ensures |r.vertices| == |c.vertices|
    ensures c.vertices[Tail(verts, i)].outgoing == INVALID_INDEX ==>
              r.vertices[Tail(verts, i)].outgoing == |c.halfEdges|
  {
    var v0 := Tail(verts, i);
    var V := if c.vertices[v0].outgoing == INVALID_INDEX
             then c.vertices[v0 := c.vertices[v0].(outgoing := |c.halfEdges|)]
             else c.vertices;
    c.(vertices := V, halfEdges := c.halfEdges[..base])
  }

  /** The creation loop from side `i` on, for a face `f` whose half-edges
      start at `base`; each accepted side is one `CreateStep`. */
  function RunAsWritten(c: MeshData, verts: seq<Index32>, f: nat, base: nat, i: nat): (r: CreationRun)
    requires i <= |verts| && VerticesExist(c, verts) && MapInRange(c) && base <= |c.halfEdges|
    ensures r.Finished? ==> |r.state.halfEdges| == |c.halfEdges| + (|verts| - i)
                            && |r.state.vertices| == |c.vertices| && r.state.faces == c.faces
    ensures r.Aborted? ==> |r.state.halfEdges| == base && r.state.faces == c.faces
    decreases |verts| - i
  {
    if i == |verts| then Finished(c)
    else if StepAborts(c, verts, i) then Aborted(AbortedState(c, verts, base, i))
    else RunAsWritten(CreateStep(c, verts, f, i), verts, f, base, i + 1)
  }

  /** `addFace` as written. Vertex indices are not checked by the source:
      an index out of range reads past the vertex array, so the caller must
      pass existing vertices. */
  function AddFaceAsWritten(d: MeshData, verts: seq<Index32>): (r: AsWrittenResult)
    requires VerticesExist(d, verts) && MapInRange(d)
    ensures || (r.face == INVALID_INDEX && r.mesh.faces == d.faces)
            || (r.face == |d.faces| && |r.mesh.faces| == |d.faces| + 1
                && r.mesh.faces[|d.faces|] == Face(|d.halfEdges|, |verts|)
                && |r.mesh.halfEdges| == |d.halfEdges| + |verts|)
    ensures |verts| < 3 || FirstDuplicate(verts, 0).Some? ==> r == AsWrittenResult(d, INVALID_INDEX)
  {
    if |verts| < 3 || FirstDuplicate(verts, 0).Some? then AsWrittenResult(d, INVALID_INDEX)
    else
      var base, n := |d.halfEdges|, |verts|;
      match RunAsWritten(d, verts, |d.faces|, base, 0)
      case Finished(c) =>
        AsWrittenResult(c.(halfEdges := Linked(c.halfEdges, base, n, n), faces := c.faces + [Face(base, n)]),
                        |d.faces|)
      case Aborted(c) => AsWrittenResult(c, INVALID_INDEX)
  }

  // ---------------------------------------------------------------------
  // On the polygons the corrected checks accept, the two agree

  /** In an accepted polygon no side finds an opposite half-edge that an
      earlier side of the same face has already paired: the creation loop
      as written never refuses. */
  lemma NoAbortAt(d: MeshData, verts: seq<Index32>, j: nat)
    requires Insertable(d, verts) && j < |verts|
    ensures !StepAborts(CreatedHalfEdges(d, verts, |d.faces|, j), verts, j)
  {
    InsertableSidesSeparate(d, verts);
    CreatedMap(d, verts, j);
    MapAfterLookup(d, verts, j, j);
    if TwinFound(d, verts, j) {
      var t := TwinOf(d, verts, j);
      TwinOfFacts(d, verts, j);
      CreatedOldHalfEdge(d, verts, j, t);
      PatchedTwinSpec(d, verts, t, j);
    }
  }

  lemma {:induction false} RunFromCreated(d: MeshData, verts: seq<Index32>, i: nat)
    requires Insertable(d, verts) && i <= |verts|
    ensures RunAsWritten(CreatedHalfEdges(d, verts, |d.faces|, i), verts, |d.faces|, |d.halfEdges|, i)
            == Finished(CreatedHalfEdges(d, verts, |d.faces|, |verts|))
    decreases |verts| - i
  {
    if i < |verts| {
      var c := CreatedHalfEdges(d, verts, |d.faces|, i);
      NoAbortAt(d, verts, i);
      assert CreatedHalfEdges(d, verts, |d.faces|, i + 1) == CreateStep(c, verts, |d.faces|, i);
      RunFromCreated(d, verts, i + 1);
    }
  }

  /** Every polygon the corrected checks accept is built by the code as
      written into the same mesh: the two differ only on the polygons the
      corrected checks refuse. */
  lemma AsWrittenAgreesOnAccepted(d: MeshData, verts: seq<Index32>)
    requires d.WellFormed()
    ensures CheckFace(d, verts).None? ==>
              AddFaceAsWritten(d, verts) == AsWrittenResult(AddFace(d, verts).mesh, AddFace(d, verts).face)
  {
    CheckFaceAccepts(d, verts);
    if CheckFace(d, verts).None? {
      assert Insertable(d, verts);
      assert FirstDuplicate(verts, 0).None?;
      RunFromCreated(d, verts, 0);
    }
  }
}
