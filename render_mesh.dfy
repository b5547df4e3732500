// The render-index builder of the viewer: triangle indices by a fan over
// each face's walked vertices, and one line pair per cached edge. The mesh
// the builder refers to is passed to `Build` as a snapshot together with
// the mesh's topology cache, which the wireframe pass builds when it is
// not valid.

module Rendering {
  import opened MeshTypes
  import opened HalfEdgeTopology
  import opened CacheWalks
  import opened CacheSpec
  import opened MeshCache

  /** Bytes per stored index: 32-bit. */
  const INDEX_SIZE: nat := 4

  // ------------------------------------------------------------ the face walk

  /** The safety cap of the face walk, `valence + 10`, computed in 32 bits. */
  function WalkLimit(valence: nat): (limit: nat)
    ensures valence + 10 < U32_MODULUS ==> limit == valence + 10
    ensures limit < U32_MODULUS
  {
    (valence + 10) % U32_MODULUS
  }

  /** What the render walk reads without a bounds check: successors and
      predecessors are the sentinel or name a half-edge. */
  ghost predicate Walkable(d: MeshData)
  {
    forall h {:trigger d.halfEdges[h]} | 0 <= h < |d.halfEdges| ::
      (d.halfEdges[h].next == INVALID_INDEX || d.halfEdges[h].next < |d.halfEdges|)
      && (d.halfEdges[h].prev == INVALID_INDEX || d.halfEdges[h].prev < |d.halfEdges|)
  }

  lemma TraversableWalkable(d: MeshData)
    requires Traversable(d)
    ensures Walkable(d)
  {
    forall h | 0 <= h < |d.halfEdges|
      ensures d.halfEdges[h].next == INVALID_INDEX || d.halfEdges[h].next < |d.halfEdges|
      ensures d.halfEdges[h].prev == INVALID_INDEX || d.halfEdges[h].prev < |d.halfEdges|
    {
    }
  }

  /** The vertices the walk collects from `cur` on, having made `count`
      steps: the tail of `cur` unless it is the sentinel, then, unless the
      step count passes `limit` or the successor is `start` or the
      sentinel, the rest of the walk from the successor. */
  function FaceWalkFrom(d: MeshData, start: nat, cur: nat, count: nat, limit: nat): (vs: seq<nat>)
    requires Walkable(d) && cur < |d.halfEdges| && count <= limit
    ensures |vs| <= limit - count + 1
    decreases limit - count
  {
    var v := d.FromVertex(cur);
    var here := if v != INVALID_INDEX then [v] else [];
    var nx := d.halfEdges[cur].next;
    here + (if count + 1 > limit || nx == start || nx == INVALID_INDEX then []
            else FaceWalkFrom(d, start, nx, count + 1, limit))
  }

  /** One step of the walk: what `cur` contributes, then the rest. */
  lemma WalkStep(d: MeshData, start: nat, cur: nat, count: nat, limit: nat)
    requires Walkable(d) && cur < |d.halfEdges| && count <= limit
    ensures d.halfEdges[cur].next == INVALID_INDEX || d.halfEdges[cur].next < |d.halfEdges|
    ensures d.halfEdges[cur].prev == INVALID_INDEX || d.halfEdges[cur].prev < |d.halfEdges|
    ensures var nx := d.halfEdges[cur].next;
            var v := d.FromVertex(cur);
            FaceWalkFrom(d, start, cur, count, limit)
            == (if v != INVALID_INDEX then [v] else [])
               + (if count + 1 > limit || nx == start || nx == INVALID_INDEX then []
                  else FaceWalkFrom(d, start, nx, count + 1, limit))
  {
  }

  /** The last step of the walk contributes only the tail of `cur`. */
  lemma WalkEnds(d: MeshData, start: nat, cur: nat, count: nat, limit: nat, here: seq<nat>)
    requires Walkable(d) && cur < |d.halfEdges| && count <= limit
    requires var nx := d.halfEdges[cur].next; count + 1 > limit || nx == start || nx == INVALID_INDEX
    requires here == (var v := d.FromVertex(cur); if v != INVALID_INDEX then [v] else [])
    ensures FaceWalkFrom(d, start, cur, count, limit) == here
  {
    assert here + [] == here;
  }

  /** A step that goes on contributes the tail of `cur`, then the walk
      from the successor. */
  lemma WalkGoesOn(d: MeshData, start: nat, cur: nat, count: nat, limit: nat, here: seq<nat>)
    requires Walkable(d) && cur < |d.halfEdges| && count <= limit
    requires var nx := d.halfEdges[cur].next; !(count + 1 > limit || nx == start || nx == INVALID_INDEX)
    requires here == (var v := d.FromVertex(cur); if v != INVALID_INDEX then [v] else [])
    ensures d.halfEdges[cur].next < |d.halfEdges|
    ensures FaceWalkFrom(d, start, cur, count, limit) == here + FaceWalkFrom(d, start, d.halfEdges[cur].next, count + 1, limit)
  {
  }

  /** The vertices collected for face `f`: nothing for a face of fewer than
      three vertices or without a valid start half-edge. */
  function FaceVerts(d: MeshData, f: nat): (vs: seq<nat>)
    requires Walkable(d) && f < |d.faces|
    ensures d.faces[f].valence < 3 || d.faces[f].edge == INVALID_INDEX || d.faces[f].edge >= |d.halfEdges| ==> vs == []
  {
    var face := d.faces[f];
    var s := face.edge;
    if face.valence < 3 || s == INVALID_INDEX || s >= |d.halfEdges| then []
    else FaceWalkFrom(d, s, s, 0, WalkLimit(face.valence))
  }

  /** The tails of the half-edges `[b + i, b + n)`, in order. */
  function TailsFrom(d: MeshData, b: nat, i: nat, n: nat): (vs: seq<nat>)
    requires Walkable(d) && i <= n && b + n <= |d.halfEdges|
    ensures |vs| == n - i
    ensures forall j | 0 <= j < n - i :: vs[j] == d.FromVertex(b + i + j)
    decreases n - i
  {
    if i == n then [] else [d.FromVertex(b + i)] + TailsFrom(d, b, i + 1, n)
  }

  /** The half-edges `[b, b + n)` form a ring by `next`, in order, and
      each has its tail set. */
  ghost predicate BlockRing(d: MeshData, b: nat, n: nat)
    requires Walkable(d) && b + n <= |d.halfEdges|
  {
    forall h | b <= h < b + n ::
      d.halfEdges[h].next == (if h + 1 < b + n then h + 1 else b) && d.FromVertex(h) != INVALID_INDEX
  }

  /** The walk round such a ring, with a cap of at least `n` steps,
      collects the tails of the ring in order and closes on its start. */
  lemma {:induction false} BlockWalk(d: MeshData, b: nat, n: nat, i: nat, limit: nat)
    requires Walkable(d) && i < n <= limit && b + n <= |d.halfEdges| < INVALID_INDEX && BlockRing(d, b, n)
    ensures FaceWalkFrom(d, b, b + i, i, limit) == TailsFrom(d, b, i, n)
    decreases n - i
  {
    var h := b + i;
    WalkStep(d, b, h, i, limit);
    assert d.halfEdges[h].next == (if h + 1 < b + n then h + 1 else b) && d.FromVertex(h) != INVALID_INDEX;
    if i + 1 < n {
      BlockWalk(d, b, n, i + 1, limit);
    }
  }

  /** In a mesh whose face `f` is laid out as the editing operations lay
      faces out, the walk collects the face's polygon in the order it was
      given, the same list the topology cache stores for the face. */
  lemma FaceVertsOfLaidOutFace(d: MeshData, f: nat)
    requires d.LinksInRange() && f < |d.faces| && d.FaceLaidOut(f)
    requires d.faces[f].valence + 10 < U32_MODULUS
    ensures Walkable(d) && d.faces[f].edge + d.faces[f].valence <= |d.halfEdges|
    ensures |FaceVerts(d, f)| == d.faces[f].valence
    ensures forall i | 0 <= i < d.faces[f].valence :: FaceVerts(d, f)[i] == d.FromVertex(d.faces[f].edge + i)
  {
    LinkedTraversable(d);
    TraversableWalkable(d);
    LaidOutRing(d, f);
    RingTails(d, f);
  }

  /** The walk round a ring face collects the tails of its block. */
  lemma RingTails(d: MeshData, f: nat)
    requires Walkable(d) && f < |d.faces| && d.faces[f].valence >= 3
    requires d.faces[f].edge + d.faces[f].valence <= |d.halfEdges| < INVALID_INDEX
    requires d.faces[f].valence + 10 < U32_MODULUS
    requires BlockRing(d, d.faces[f].edge, d.faces[f].valence)
    ensures |FaceVerts(d, f)| == d.faces[f].valence
    ensures forall i | 0 <= i < d.faces[f].valence :: FaceVerts(d, f)[i] == d.FromVertex(d.faces[f].edge + i)
  {
    RingWalk(d, f);
  }

  /** The walk round a face whose block is a ring is the ring's tails. */
  lemma RingWalk(d: MeshData, f: nat)
    requires Walkable(d) && f < |d.faces| && d.faces[f].valence >= 3
    requires d.faces[f].edge + d.faces[f].valence <= |d.halfEdges| < INVALID_INDEX
    requires d.faces[f].valence + 10 < U32_MODULUS
    requires BlockRing(d, d.faces[f].edge, d.faces[f].valence)
    ensures FaceVerts(d, f) == TailsFrom(d, d.faces[f].edge, 0, d.faces[f].valence)
  {
    var b, n := d.faces[f].edge, d.faces[f].valence;
    assert FaceVerts(d, f) == FaceWalkFrom(d, b, b, 0, n + 10);
    BlockWalk(d, b, n, 0, n + 10);
  }

  /** A laid-out face's block is a ring with its tails set. */
  lemma LaidOutRing(d: MeshData, f: nat)
    requires d.LinksInRange() && Walkable(d) && f < |d.faces| && d.FaceLaidOut(f)
    ensures d.faces[f].edge + d.faces[f].valence <= |d.halfEdges| && d.faces[f].valence >= 3
    ensures BlockRing(d, d.faces[f].edge, d.faces[f].valence)
  {
    var b, n := d.faces[f].edge, d.faces[f].valence;
    forall h | b <= h < b + n
      ensures d.halfEdges[h].next == (if h + 1 < b + n then h + 1 else b) && d.FromVertex(h) != INVALID_INDEX
    {
      assert d.halfEdges[h].next == b + Succ(h - b, n);
      assert d.LinksOk(d.halfEdges[h]);
      assert d.LinksOk(d.halfEdges[d.halfEdges[h].prev]);
    }
  }

  // ---------------------------------------------------------------- the fan

  /** Triangle `t` of an index list: its three entries. */
  function Tri(ix: seq<nat>, t: nat): seq<nat>
    requires 3 * t + 3 <= |ix|
  {
    ix[3 * t..3 * t + 3]
  }

  /** The first `k` triangles of the fan over `vs`: `(vs[0], vs[i], vs[i + 1])`
      for `i` from 1 to `k`. */
  function FanUpTo(vs: seq<nat>, k: nat): (ix: seq<nat>)
    requires k + 2 <= |vs|
    ensures |ix| == 3 * k
  {
    if k == 0 then [] else FanUpTo(vs, k - 1) + [vs[0], vs[k], vs[k + 1]]
  }

  /** Triangle `t` of the first `k` is `(vs[0], vs[t + 1], vs[t + 2])`. */
  lemma {:induction false} FanUpToTriangles(vs: seq<nat>, k: nat)
    requires k + 2 <= |vs|
    ensures forall t | 0 <= t < k :: Tri(FanUpTo(vs, k), t) == [vs[0], vs[t + 1], vs[t + 2]]
  {
    if k > 0 {
      FanUpToTriangles(vs, k - 1);
      var prev := FanUpTo(vs, k - 1);
      var ix := FanUpTo(vs, k);
      assert ix == prev + [vs[0], vs[k], vs[k + 1]];
      assert forall t | 0 <= t < k - 1 :: Tri(ix, t) == Tri(prev, t);
      assert Tri(ix, k - 1) == [vs[0], vs[k], vs[k + 1]];
    }
  }

  /** The fan over a polygon's vertices: `k - 2` triangles for `k >= 3`
      vertices, none for fewer. */
  function Fan(vs: seq<nat>): (ix: seq<nat>)
    ensures |ix| == if |vs| >= 3 then 3 * (|vs| - 2) else 0
  {
    if |vs| < 3 then [] else FanUpTo(vs, |vs| - 2)
  }

  /** Triangle `t` of the fan is `(vs[0], vs[t + 1], vs[t + 2])`: every
      triangle shares the first vertex, and consecutive triangles share an
      edge. */
  lemma FanTriangles(vs: seq<nat>)
    requires |vs| >= 3
    ensures forall t | 0 <= t < |vs| - 2 :: Tri(Fan(vs), t) == [vs[0], vs[t + 1], vs[t + 2]]
  {
    FanUpToTriangles(vs, |vs| - 2);
  }

  /** The triangle indices of the first `k` faces: the fan of each face's
      collected vertices, in face order. */
  function TrianglesUpTo(d: MeshData, k: nat): seq<nat>
    requires Walkable(d) && k <= |d.faces|
  {
    if k == 0 then [] else TrianglesUpTo(d, k - 1) + Fan(FaceVerts(d, k - 1))
  }

  /** Appending the next face's fan extends the indices one face further. */
  lemma TrianglesStep(pre: seq<nat>, d: MeshData, k: nat)
    requires Walkable(d) && k < |d.faces|
    ensures pre + TrianglesUpTo(d, k + 1) == (pre + TrianglesUpTo(d, k)) + Fan(FaceVerts(d, k))
  {
  }

  /** The triangle indices the builder produces for a mesh. */
  function Triangles(d: MeshData): seq<nat>
    requires Walkable(d)
  {
    TrianglesUpTo(d, |d.faces|)
  }

  /** The number of triangles of the first `k` faces of a mesh whose faces
      are laid out: `valence - 2` each. */
  function PolygonTriangles(d: MeshData, k: nat): nat
    requires k <= |d.faces|
  {
    if k == 0 then 0 else PolygonTriangles(d, k - 1) + (if d.faces[k - 1].valence >= 2 then d.faces[k - 1].valence - 2 else 0)
  }

  /** A laid-out face of valence `n` gets a fan of `n - 2` triangles. */
  lemma LaidOutFan(d: MeshData, f: nat)
    requires d.LinksInRange() && f < |d.faces| && d.FaceLaidOut(f)
    requires d.faces[f].valence + 10 < U32_MODULUS
    ensures Walkable(d) && d.faces[f].valence >= 3
    ensures |Fan(FaceVerts(d, f))| == 3 * (d.faces[f].valence - 2)
  {
    FaceVertsOfLaidOutFace(d, f);
  }

  /** Every face's fan has `valence - 2` triangles. */
  ghost predicate PolygonFans(d: MeshData)
    requires Walkable(d)
  {
    forall f | 0 <= f < |d.faces| :: PolygonFan(d, f)
  }

  /** Face `f` has at least three vertices and a fan of `valence - 2`
      triangles. */
  ghost predicate PolygonFan(d: MeshData, f: nat)
    requires Walkable(d) && f < |d.faces|
  {
    d.faces[f].valence >= 3 && |Fan(FaceVerts(d, f))| == 3 * (d.faces[f].valence - 2)
  }

  /** In a mesh whose faces are laid out, every face's fan is its polygon's. */
  lemma LaidOutFans(d: MeshData)
    requires d.LinksInRange() && d.FacesLaidOut()
    requires forall f | 0 <= f < |d.faces| :: d.faces[f].valence + 10 < U32_MODULUS
    ensures Walkable(d) && PolygonFans(d)
  {
    LinkedTraversable(d);
    TraversableWalkable(d);
    forall f | 0 <= f < |d.faces|
      ensures PolygonFan(d, f)
    {
      assert d.FaceLaidOut(f);
      LaidOutFan(d, f);
    }
  }

  /** With such fans, the first `k` faces contribute three indices per
      polygon triangle. */
  lemma {:induction false} FanCount(d: MeshData, k: nat)
    requires Walkable(d) && PolygonFans(d) && k <= |d.faces|
    ensures |TrianglesUpTo(d, k)| == 3 * PolygonTriangles(d, k)
  {
    if k > 0 {
      FanCount(d, k - 1);
      FanCountStep(d, k - 1);
    }
  }

  /** One face further: a face of valence `n >= 3` whose fan holds
      `3 * (n - 2)` indices keeps the count. */
  lemma FanCountStep(d: MeshData, k: nat)
    requires Walkable(d) && k < |d.faces| && PolygonFan(d, k)
    requires |TrianglesUpTo(d, k)| == 3 * PolygonTriangles(d, k)
    ensures |TrianglesUpTo(d, k + 1)| == 3 * PolygonTriangles(d, k + 1)
  {
  }

  // ---------------------------------------------------------- the wireframe

  /** The line pairs of the first `k` edges: the cached endpoints of each
      edge whose pair is set at both ends, in edge order. */
  function Lines(ends: seq<EdgeEnds>, k: nat): seq<nat>
  {
    if k == 0 then []
    else
      var p := if k - 1 < |ends| then ends[k - 1] else Unset();
      Lines(ends, k - 1) + (if p.v0 != INVALID_INDEX && p.v1 != INVALID_INDEX then [p.v0, p.v1] else [])
  }

  /** When every one of the first `k` edges has both ends set, the
      wireframe holds one pair per edge, pair `e` being edge `e`'s ends. */
  lemma {:induction false} LinesOfSetEnds(ends: seq<EdgeEnds>, k: nat)
    requires k <= |ends|
    requires forall e | 0 <= e < k :: ends[e].v0 != INVALID_INDEX && ends[e].v1 != INVALID_INDEX
    ensures |Lines(ends, k)| == 2 * k
    ensures forall e | 0 <= e < k :: Lines(ends, k)[2 * e] == ends[e].v0 && Lines(ends, k)[2 * e + 1] == ends[e].v1
  {
    if k > 0 {
      LinesOfSetEnds(ends, k - 1);
      var prev := Lines(ends, k - 1);
      assert Lines(ends, k) == prev + [ends[k - 1].v0, ends[k - 1].v1];
    }
  }

  /** With no stored ends, as for a cache left cleared by a mesh without
      vertices, the wireframe is empty. */
  lemma {:induction false} LinesOfNoEnds(k: nat)
    ensures Lines([], k) == []
  {
    if k > 0 {
      LinesOfNoEnds(k - 1);
    }
  }

  /** In a mesh whose links are in range and whose edges are all used and
      shared by twins, every edge gets its line: the cached ends of the
      edge, smaller first. */
  lemma MeshLines(d: MeshData)
    requires d.LinksInRange() && d.TwinsPaired() && d.EdgesShared() && d.EdgesUsed()
    ensures Traversable(d)
    ensures |Lines(EdgeEndsAfter(d, |d.halfEdges|), |d.edges|)| == 2 * |d.edges|
    ensures forall h | 0 <= h < |d.halfEdges| ::
              d.halfEdges[h].edge < |d.edges|
              && Lines(EdgeEndsAfter(d, |d.halfEdges|), |d.edges|)[2 * d.halfEdges[h].edge]
                 == Canonical(Tail(d, h), d.halfEdges[h].to).v0
              && Lines(EdgeEndsAfter(d, |d.halfEdges|), |d.edges|)[2 * d.halfEdges[h].edge + 1]
                 == Canonical(Tail(d, h), d.halfEdges[h].to).v1
  {
    EdgeEndsSet(d);
    var ends := EdgeEndsAfter(d, |d.halfEdges|);
    LinesOfSetEnds(ends, |d.edges|);
    forall h | 0 <= h < |d.halfEdges|
      ensures d.halfEdges[h].edge < |d.edges| && ends[d.halfEdges[h].edge] == Canonical(Tail(d, h), d.halfEdges[h].to)
    {
      EdgeEndsMeaning(d, h);
    }
  }

  /** Every edge of such a mesh has both cached ends set. */
  lemma EdgeEndsSet(d: MeshData)
    requires d.LinksInRange() && d.TwinsPaired() && d.EdgesShared() && d.EdgesUsed()
    ensures Traversable(d) && |EdgeEndsAfter(d, |d.halfEdges|)| == |d.edges|
    ensures forall e | 0 <= e < |d.edges| ::
              EdgeEndsAfter(d, |d.halfEdges|)[e].v0 != INVALID_INDEX && EdgeEndsAfter(d, |d.halfEdges|)[e].v1 != INVALID_INDEX
  {
    LinkedTraversable(d);
    var ends := EdgeEndsAfter(d, |d.halfEdges|);
    forall e | 0 <= e < |d.edges|
      ensures ends[e].v0 != INVALID_INDEX && ends[e].v1 != INVALID_INDEX
    {
      var h := UsedEdge(d, e);
      EndsOfHalfEdge(d, h);
    }
  }

  /** The cached ends of a half-edge's edge are two vertices. */
  lemma EndsOfHalfEdge(d: MeshData, h: nat)
    requires d.LinksInRange() && d.TwinsPaired() && d.EdgesShared() && h < |d.halfEdges|
    ensures Traversable(d) && d.halfEdges[h].edge < |d.edges|
    ensures EdgeEndsAfter(d, |d.halfEdges|)[d.halfEdges[h].edge].v0 < |d.vertices|
    ensures EdgeEndsAfter(d, |d.halfEdges|)[d.halfEdges[h].edge].v1 < |d.vertices|
  {
    EdgeEndsMeaning(d, h);
    assert d.LinksOk(d.halfEdges[h]);
    assert d.LinksOk(d.halfEdges[d.halfEdges[h].prev]);
  }

  // ----------------------------------------------------------- the builder

  /** The walk of `buildTriangleIndices` over one face. */
  method CollectFaceVertices(d: MeshData, f: nat) returns (vs: seq<nat>)
    requires Walkable(d) && f < |d.faces|
    ensures vs == FaceVerts(d, f)
  {
    vs := [];
    var face := d.faces[f];
    var start := face.edge;
    if face.valence < 3 || start == INVALID_INDEX || start >= |d.halfEdges| {
      return;
    }
    var limit := WalkLimit(face.valence);
    ghost var whole := FaceWalkFrom(d, start, start, 0, limit);
    assert whole == FaceVerts(d, f);
    var current: nat := start;
    var count: nat := 0;
    var stop := false;
    while !stop
      invariant current < |d.halfEdges| && count <= limit
      invariant stop ==> vs == whole
      invariant !stop ==> vs + FaceWalkFrom(d, start, current, count, limit) == whole
      decreases limit - count, !stop
    {
      vs, current, count, stop := WalkOnce(d, start, current, count, limit, vs);
    }
  }

  /** One pass of the walk's body: collect the tail of `cur` unless it is
      the sentinel, step to the successor, and say whether the walk ends. */
  method WalkOnce(d: MeshData, start: nat, cur: nat, count: nat, limit: nat, vs: seq<nat>)
    returns (vs': seq<nat>, nx: nat, count': nat, stop: bool)
    requires Walkable(d) && cur < |d.halfEdges| && count <= limit
    ensures nx < |d.halfEdges| && count' <= limit
    ensures stop ==> vs' == vs + FaceWalkFrom(d, start, cur, count, limit)
    ensures stop ==> count' == count
    ensures !stop ==> count' == count + 1
    ensures !stop ==> vs' + FaceWalkFrom(d, start, nx, count', limit) == vs + FaceWalkFrom(d, start, cur, count, limit)
  {
    var v := d.FromVertex(cur);
    var here := if v != INVALID_INDEX then [v] else [];
    vs' := vs + here;
    var succ := d.halfEdges[cur].next;
    stop := count + 1 > limit || succ == start || succ == INVALID_INDEX;
    if stop {
      nx, count' := cur, count;
      WalkEnds(d, start, cur, count, limit, here);
    } else {
      nx, count' := succ, count + 1;
      WalkGoesOn(d, start, cur, count, limit, here);
      ghost var rest := FaceWalkFrom(d, start, nx, count', limit);
      assert vs + (here + rest) == vs' + rest;
    }
  }

  class RenderMesh {
    var triangleIndices: seq<nat>
    var wireframeIndices: seq<nat>
    var valid: bool

    /** A new builder holds no indices and is not valid. */
    constructor ()
      ensures triangleIndices == [] && wireframeIndices == [] && !valid
    {
      triangleIndices, wireframeIndices, valid := [], [], false;
    }

    /** `clear`: both buffers emptied, the flag lowered. */
    method Clear()
      modifies this
      ensures triangleIndices == [] && wireframeIndices == [] && !valid
    {
      triangleIndices, wireframeIndices, valid := [], [], false;
    }

    /** `build`: clear, fill both buffers from the mesh, raise the flag.
        The mesh's cache, when not valid, is built on the way; a valid one
        is taken to describe the mesh, as the mesh keeps it. */
    method Build(d: MeshData, cache: TopologyCache)
      requires Traversable(d) && cache.Valid() && (cache.valid ==> cache.BuiltFrom(d))
      modifies this, cache
      ensures Walkable(d) && valid && triangleIndices == Triangles(d)
      ensures cache.Valid() && wireframeIndices == Lines(cache.edgeData.vertices, |d.edges|)
      ensures |d.vertices| == 0 ==> cache.Cleared()
      ensures |d.vertices| > 0 ==> cache.BuiltFrom(d)
    {
      Clear();
      TraversableWalkable(d);
      BuildTriangleIndices(d);
      BuildWireframeIndices(d, cache);
      valid := true;
    }

    /** `buildTriangleIndices`: the fan of each face, in face order. */
    method BuildTriangleIndices(d: MeshData)
      requires Walkable(d)
      modifies this
      ensures triangleIndices == old(triangleIndices) + Triangles(d)
      ensures wireframeIndices == old(wireframeIndices) && valid == old(valid)
    {
      for f := 0 to |d.faces|
        invariant triangleIndices == old(triangleIndices) + TrianglesUpTo(d, f)
        invariant wireframeIndices == old(wireframeIndices) && valid == old(valid)
      {
        AppendFace(d, f);
        TrianglesStep(old(triangleIndices), d, f);
      }
    }

    /** The body of the face loop: walk face `f`, append its fan. */
    method AppendFace(d: MeshData, f: nat)
      requires Walkable(d) && f < |d.faces|
      modifies this
      ensures triangleIndices == old(triangleIndices) + Fan(FaceVerts(d, f))
      ensures wireframeIndices == old(wireframeIndices) && valid == old(valid)
    {
      var vs := CollectFaceVertices(d, f);
      AppendFan(vs);
    }

    /** The fan loop over one face's collected vertices. */
    method AppendFan(vs: seq<nat>)
      modifies this
      ensures triangleIndices == old(triangleIndices) + Fan(vs)
      ensures wireframeIndices == old(wireframeIndices) && valid == old(valid)
    {
      if |vs| < 3 {
        return;
      }
      var i := 1;
      while i + 1 < |vs|
        invariant 1 <= i <= |vs| - 1
        invariant triangleIndices == old(triangleIndices) + FanUpTo(vs, i - 1)
        invariant wireframeIndices == old(wireframeIndices) && valid == old(valid)
      {
        triangleIndices := triangleIndices + [vs[0], vs[i], vs[i + 1]];
        i := i + 1;
      }
    }

    /** `buildWireframeIndices`: make sure the cache is built, then one
        pair per edge whose cached ends are both set. */
    method BuildWireframeIndices(d: MeshData, cache: TopologyCache)
      requires Traversable(d) && cache.Valid() && (cache.valid ==> cache.BuiltFrom(d))
      modifies this, cache
      ensures wireframeIndices == old(wireframeIndices) + Lines(cache.edgeData.vertices, |d.edges|)
      ensures triangleIndices == old(triangleIndices) && valid == old(valid)
      ensures cache.Valid()
      ensures |d.vertices| == 0 ==> cache.Cleared()
      ensures |d.vertices| > 0 ==> cache.BuiltFrom(d)
    {
      if !cache.IsValid() {
        cache.Build(d);
      }
      AppendLines(cache, |d.edges|);
    }

    /** The edge loop of the wireframe pass over the first `n` edges. */
    method AppendLines(cache: TopologyCache, n: nat)
      modifies this
      ensures wireframeIndices == old(wireframeIndices) + Lines(cache.edgeData.vertices, n)
      ensures triangleIndices == old(triangleIndices) && valid == old(valid)
    {
      var e := 0;
      while e < n
        invariant e <= n
        invariant wireframeIndices == old(wireframeIndices) + Lines(cache.edgeData.vertices, e)
        invariant triangleIndices == old(triangleIndices) && valid == old(valid)
      {
        var p := cache.GetEdgeVertices(e);
        if p.v0 != INVALID_INDEX && p.v1 != INVALID_INDEX {
          wireframeIndices := wireframeIndices + [p.v0, p.v1];
        }
        e := e + 1;
      }
    }

    /** `isValid`. */
    function IsValid(): (b: bool)
      reads this
      ensures b == valid
    {
      valid
    }

    /** The size getters. */
    function NumTriangles(): nat
      reads this
    {
      |triangleIndices| / 3
    }

    function NumWireframeLines(): nat
      reads this
    {
      |wireframeIndices| / 2
    }

    function TriangleIndicesBytes(): nat
      reads this
    {
      INDEX_SIZE * |triangleIndices|
    }

    function WireframeIndicesBytes(): nat
      reads this
    {
      INDEX_SIZE * |wireframeIndices|
    }

    /** `getMemoryUsage`: the bytes of both buffers. */
    function MemoryUsage(): nat
      reads this
    {
      INDEX_SIZE * (|triangleIndices| + |wireframeIndices|)
    }
  }

  /** After a build from a mesh whose faces are laid out and whose edges are
      used and shared, the builder holds `valence - 2` triangles per face and
      one line per edge, and the byte counts follow. */
  lemma BuiltRenderCounts(r: RenderMesh, d: MeshData, c: TopologyCache)
    requires d.LinksInRange() && d.FacesLaidOut() && d.TwinsPaired() && d.EdgesShared() && d.EdgesUsed()
    requires forall f | 0 <= f < |d.faces| :: d.faces[f].valence + 10 < U32_MODULUS
    requires Traversable(d) && Walkable(d) && |d.vertices| > 0 && c.BuiltFrom(d)
    requires r.triangleIndices == Triangles(d) && r.wireframeIndices == Lines(c.edgeData.vertices, |d.edges|)
    ensures r.NumTriangles() == PolygonTriangles(d, |d.faces|)
    ensures r.NumWireframeLines() == |d.edges|
    ensures r.TriangleIndicesBytes() == INDEX_SIZE * 3 * PolygonTriangles(d, |d.faces|)
    ensures r.WireframeIndicesBytes() == INDEX_SIZE * 2 * |d.edges|
    ensures r.MemoryUsage() == r.TriangleIndicesBytes() + r.WireframeIndicesBytes()
  {
    assert c.Arrays().From(d);
    RenderSizes(d);
  }

  /** The buffer lengths for such a mesh. */
  lemma RenderSizes(d: MeshData)
    requires d.LinksInRange() && d.FacesLaidOut() && d.TwinsPaired() && d.EdgesShared() && d.EdgesUsed()
    requires forall f | 0 <= f < |d.faces| :: d.faces[f].valence + 10 < U32_MODULUS
    requires Traversable(d) && Walkable(d)
    ensures |Triangles(d)| == 3 * PolygonTriangles(d, |d.faces|)
    ensures |Lines(EdgeEndsAfter(d, |d.halfEdges|), |d.edges|)| == 2 * |d.edges|
  {
    LaidOutFans(d);
    FanCount(d, |d.faces|);
    MeshLines(d);
  }
}
