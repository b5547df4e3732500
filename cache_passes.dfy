// The topology cache: flat per-element arrays and compressed-sparse-row
// adjacency built from one snapshot of the mesh in a fixed sequence of
// passes. Each pass is a method proved to compute the specification
// function of the same name in CacheSpec; the cache object stores their
// results and answers queries from them.

module CachePasses {
  import opened MeshTypes
  import opened HalfEdgeTopology
  import opened CacheWalks
  import opened CacheSpec
  import opened Csr

  // ------------------------------------------------------- the passes

  /** The border flags after half-edges `0 .. n-1`: 1 unless one of them
      on the edge has a twin. */
  ghost function BorderFlagsAfter(d: MeshData, n: nat): (flags: seq<nat>)
    requires n <= |d.halfEdges|
    ensures |flags| == |d.edges|
  {
    seq(|d.edges|, e requires 0 <= e => if Twinned(d, e, n) then 0 else 1)
  }

  /** The face counts after half-edges `0 .. n-1`. */
  ghost function FaceCountsAfter(d: MeshData, n: nat): (counts: seq<nat>)
    requires n <= |d.halfEdges|
    ensures |counts| == |d.edges|
  {
    seq(|d.edges|, e requires 0 <= e => |FacedOn(d, e, n)|)
  }

  /** The half-edge pass: every half-edge with an edge of the mesh sets
      that edge's endpoints if they are still unset, counts the edge once
      if it bounds a face, and clears the edge's border flag if it has a
      twin. */
  method ScanHalfEdges(d: MeshData) returns (ends: seq<EdgeEnds>, border: seq<nat>, faceCounts: seq<nat>)
    requires Traversable(d)
    ensures ends == EdgeEndsAfter(d, |d.halfEdges|)
    ensures border == EdgeBorderFlags(d)
    ensures faceCounts == EdgeFaceCounts(d)
  {
    var numEdges := |d.edges|;
    ends := seq(numEdges, _ => Unset());
    border := seq(numEdges, _ => 1);
    faceCounts := seq(numEdges, _ => 0);
    assert border == BorderFlagsAfter(d, 0);
    assert faceCounts == FaceCountsAfter(d, 0);
    var h := 0;
    while h < |d.halfEdges|
      invariant 0 <= h <= |d.halfEdges|
      invariant ends == EdgeEndsAfter(d, h)
      invariant border == BorderFlagsAfter(d, h)
      invariant faceCounts == FaceCountsAfter(d, h)
    {
      ends, border, faceCounts := ScanHalfEdge(d, h, ends, border, faceCounts);
      h := h + 1;
    }
    assert border == EdgeBorderFlags(d);
    assert faceCounts == EdgeFaceCounts(d);
  }

  /** One step of the half-edge pass. */
  method ScanHalfEdge(d: MeshData, h: nat, ends: seq<EdgeEnds>, border: seq<nat>, faceCounts: seq<nat>)
    returns (ends': seq<EdgeEnds>, border': seq<nat>, faceCounts': seq<nat>)
    requires Traversable(d) && h < |d.halfEdges|
    requires ends == EdgeEndsAfter(d, h) && border == BorderFlagsAfter(d, h) && faceCounts == FaceCountsAfter(d, h)
    ensures ends' == EdgeEndsAfter(d, h + 1) && border' == BorderFlagsAfter(d, h + 1)
    ensures faceCounts' == FaceCountsAfter(d, h + 1)
  {
    ends', border', faceCounts' := ends, border, faceCounts;
    var he := d.halfEdges[h];
    BorderStep(d, h);
    FaceCountStep(d, h);
    if IsValidIndex(he.edge, |d.edges|) {
      if ends'[he.edge].v0 == INVALID_INDEX {
        ends' := ends'[he.edge := Canonical(Tail(d, h), he.to)];
      }
      assert ends' == EdgeEndsAfter(d, h + 1);
      if he.face != INVALID_INDEX {
        faceCounts' := faceCounts'[he.edge := faceCounts'[he.edge] + 1];
      }
      assert faceCounts' == FaceCountsAfter(d, h + 1);
      if he.twin != INVALID_INDEX {
        border' := border'[he.edge := 0];
      }
    }
  }

  /** One more half-edge clears the flag of its edge if it has a twin. */
  lemma BorderStep(d: MeshData, h: nat)
    requires d.SizesFit() && h < |d.halfEdges|
    ensures var he := d.halfEdges[h];
            BorderFlagsAfter(d, h + 1) ==
              if IsValidIndex(he.edge, |d.edges|) && he.twin != INVALID_INDEX
              then BorderFlagsAfter(d, h)[he.edge := 0] else BorderFlagsAfter(d, h)
  {
    var he := d.halfEdges[h];
    forall e | 0 <= e < |d.edges|
      ensures Twinned(d, e, h + 1) <==> Twinned(d, e, h) || (he.edge == e && he.twin != INVALID_INDEX)
    {
      if Twinned(d, e, h + 1) && !(he.edge == e && he.twin != INVALID_INDEX) {
        var g :| 0 <= g < h + 1 && d.halfEdges[g].edge == e && d.halfEdges[g].twin != INVALID_INDEX;
        assert g < h;
      }
    }
  }

  /** One more half-edge counts its edge once if it bounds a face. */
  lemma FaceCountStep(d: MeshData, h: nat)
    requires d.SizesFit() && h < |d.halfEdges|
    ensures var he := d.halfEdges[h];
            FaceCountsAfter(d, h + 1) ==
              if IsValidIndex(he.edge, |d.edges|) && he.face != INVALID_INDEX
              then FaceCountsAfter(d, h)[he.edge := FaceCountsAfter(d, h)[he.edge] + 1] else FaceCountsAfter(d, h)
  {
    var he := d.halfEdges[h];
    forall e | 0 <= e < |d.edges|
      ensures |FacedOn(d, e, h + 1)| == |FacedOn(d, e, h)| + (if he.edge == e && he.face != INVALID_INDEX then 1 else 0)
    {
      if he.edge == e && he.face != INVALID_INDEX {
        assert FacedOn(d, e, h + 1) == FacedOn(d, e, h) + {h};
      } else {
        assert FacedOn(d, e, h + 1) == FacedOn(d, e, h);
      }
    }
  }

  /** The valence pass: each edge adds one, modulo 2^16, to each endpoint
      that is a vertex. */
  method CountValences(ends: seq<EdgeEnds>, numVertices: nat) returns (valences: seq<nat>)
    requires numVertices < INVALID_INDEX
    ensures valences == Valences(ends, numVertices)
  {
    valences := seq(numVertices, _ => 0);
    var e := 0;
    while e < |ends|
      invariant 0 <= e <= |ends| && |valences| == numVertices
      invariant forall v | 0 <= v < numVertices :: valences[v] == Hits(ends, e, v) % VALENCE_MODULUS
    {
      var v0, v1 := ends[e].v0, ends[e].v1;
      if IsValidIndex(v0, numVertices) {
        valences := valences[v0 := (valences[v0] + 1) % VALENCE_MODULUS];
      }
      ghost var middle := valences;
      forall v | 0 <= v < numVertices
        ensures middle[v] == (Hits(ends, e, v) + (if v0 == v then 1 else 0)) % VALENCE_MODULUS
      {
        if v == v0 {
          CounterStep(Hits(ends, e, v));
        }
      }
      if IsValidIndex(v1, numVertices) {
        valences := valences[v1 := (valences[v1] + 1) % VALENCE_MODULUS];
      }
      forall v | 0 <= v < numVertices
        ensures valences[v] == Hits(ends, e + 1, v) % VALENCE_MODULUS
      {
        if v == v1 {
          CounterStep(Hits(ends, e, v) + (if v0 == v then 1 else 0));
        }
      }
      e := e + 1;
    }
  }

  /** Incrementing a 16-bit counter is counting modulo 2^16. */
  lemma CounterStep(a: nat)
    ensures ((a % VALENCE_MODULUS) + 1) % VALENCE_MODULUS == (a + 1) % VALENCE_MODULUS
  {
  }

  /** The vertex border pass: both endpoints of every border edge are
      flagged. */
  method MarkBorderVertices(ends: seq<EdgeEnds>, border: seq<nat>, numVertices: nat) returns (flags: seq<nat>)
    requires |border| == |ends| && numVertices < INVALID_INDEX
    ensures flags == VertexBorderFlags(ends, border, numVertices)
  {
    flags := seq(numVertices, _ => 0);
    var e := 0;
    while e < |ends|
      invariant 0 <= e <= |ends| && |flags| == numVertices
      invariant forall v | 0 <= v < numVertices :: flags[v] == if BorderBelow(ends, border, e, v) then 1 else 0
    {
      if border[e] != 0 {
        var v0, v1 := ends[e].v0, ends[e].v1;
        if IsValidIndex(v0, numVertices) {
          flags := flags[v0 := 1];
        }
        if IsValidIndex(v1, numVertices) {
          flags := flags[v1 := 1];
        }
      }
      forall v | 0 <= v < numVertices
        ensures BorderBelow(ends, border, e + 1, v) <==>
                  BorderBelow(ends, border, e, v) || (border[e] != 0 && (ends[e].v0 == v || ends[e].v1 == v))
      {
        BorderVertexStep(ends, border, e, v);
      }
      e := e + 1;
    }
  }

  /** One more edge extends the border test of a vertex by that edge. */
  lemma BorderVertexStep(ends: seq<EdgeEnds>, border: seq<nat>, e: nat, v: nat)
    requires e < |ends| == |border|
    ensures BorderBelow(ends, border, e + 1, v) <==>
              BorderBelow(ends, border, e, v) || (border[e] != 0 && (ends[e].v0 == v || ends[e].v1 == v))
  {
    if BorderBelow(ends, border, e + 1, v) && !(border[e] != 0 && (ends[e].v0 == v || ends[e].v1 == v)) {
      var g :| 0 <= g < e + 1 && border[g] != 0 && (ends[g].v0 == v || ends[g].v1 == v);
      assert g < e;
    }
  }

  /** `counts` with one added at the tail of half-edge `h` when that is a vertex. */
  function Bump(d: MeshData, counts: seq<nat>, h: nat): (r: seq<nat>)
    requires Traversable(d) && h < |d.halfEdges| && |counts| == |d.vertices|
    ensures |r| == |counts|
  {
    var v := Tail(d, h);
    if IsValidIndex(v, |d.vertices|) then counts[v := counts[v] + 1] else counts
  }

  /** `counts` bumped at the tail of every half-edge of `hs` in turn. */
  function TallyTails(d: MeshData, counts: seq<nat>, hs: seq<nat>): (r: seq<nat>)
    requires Traversable(d) && |counts| == |d.vertices| && forall i | 0 <= i < |hs| :: hs[i] < |d.halfEdges|
    ensures |r| == |counts|
    decreases |hs|
  {
    if hs == [] then counts else TallyTails(d, Bump(d, counts, hs[0]), hs[1..])
  }

  /** Tallying adds each vertex's number of occurrences among the tails. */
  lemma {:induction false} TallyTailsCounts(d: MeshData, counts: seq<nat>, hs: seq<nat>, v: nat)
    requires Traversable(d) && forall i | 0 <= i < |hs| :: hs[i] < |d.halfEdges|
    requires |counts| == |d.vertices| && v < |counts|
    ensures TallyTails(d, counts, hs)[v] == counts[v] + multiset(ValidTails(d, hs))[v]
    decreases |hs|
  {
    if hs != [] {
      TallyTailsCounts(d, Bump(d, counts, hs[0]), hs[1..], v);
      ValidTailsCons(d, hs);
      assert ValidTails(d, [hs[0]]) == (if IsValidIndex(Tail(d, hs[0]), |d.vertices|) then [Tail(d, hs[0])] else []) + ValidTails(d, []);
    }
  }

  /** The vertex-face counting pass over one face: walk the face and count
      one visit for the tail of every half-edge that is a vertex. */
  method CountFaceVisits(d: MeshData, f: nat, counts: seq<nat>) returns (counts': seq<nat>)
    requires Traversable(d) && f < |d.faces| && |counts| == |d.vertices|
    ensures counts' == TallyTails(d, counts, FaceLoop(d, f))
  {
    counts' := counts;
    var start: nat := d.faces[f].edge;
    if start == INVALID_INDEX {
      return;
    }
    var visited: set<nat> := {};
    var current: nat := start;
    while true
      invariant current < |d.halfEdges| && visited <= Indices(|d.halfEdges|) && |counts'| == |d.vertices|
      invariant TallyTails(d, counts', FaceLoopFrom(d, start, current, visited)) == TallyTails(d, counts, FaceLoop(d, f))
      decreases Indices(|d.halfEdges|) - visited
    {
      if current in visited {
        break;
      }
      ghost var rest := FaceLoopFrom(d, start, current, visited);
      visited := visited + {current};
      counts' := Bump(d, counts', current);
      var nx: nat := d.halfEdges[current].next;
      if nx == start || !IsValidIndex(nx, |d.halfEdges|) {
        assert rest == [current];
        break;
      }
      assert rest == [current] + FaceLoopFrom(d, start, nx, visited);
      assert rest[1..] == FaceLoopFrom(d, start, nx, visited);
      current := nx;
    }
  }

  /** The vertex-face counting pass: the visits of every face walk to each
      vertex. */
  method CountVertexFaces(d: MeshData) returns (counts: seq<nat>)
    requires Traversable(d)
    ensures counts == VertexFaceCounts(d)
  {
    counts := seq(|d.vertices|, _ => 0);
    var f := 0;
    assert Flatten(FaceVertexLists(d)[..0]) == [];
    assert counts == VisitsBefore(d, 0);
    while f < |d.faces|
      invariant 0 <= f <= |d.faces| && counts == VisitsBefore(d, f)
    {
      VisitsStep(d, f);
      counts := CountFaceVisits(d, f, counts);
      f := f + 1;
    }
    assert FaceVertexLists(d)[..|d.faces|] == FaceVertexLists(d);
  }

  /** The vertex-face counts after the walks of the first `f` faces. */
  ghost function VisitsBefore(d: MeshData, f: nat): (c: seq<nat>)
    requires Traversable(d) && f <= |d.faces|
    ensures |c| == |d.vertices|
  {
    seq(|d.vertices|, v requires 0 <= v => multiset(Flatten(FaceVertexLists(d)[..f]))[v])
  }

  /** Walking face `f` moves the counts of the first `f` faces on to those
      of the first `f + 1`. */
  lemma VisitsStep(d: MeshData, f: nat)
    requires Traversable(d) && f < |d.faces|
    ensures TallyTails(d, VisitsBefore(d, f), FaceLoop(d, f)) == VisitsBefore(d, f + 1)
  {
    var K := FaceVertexLists(d);
    var c := VisitsBefore(d, f);
    var c' := TallyTails(d, c, FaceLoop(d, f));
    assert K[..f + 1][..f] == K[..f];
    assert Flatten(K[..f + 1]) == Flatten(K[..f]) + K[f];
    forall v | 0 <= v < |d.vertices|
      ensures c'[v] == VisitsBefore(d, f + 1)[v]
    {
      TallyTailsCounts(d, c, FaceLoop(d, f), v);
    }
  }

  // ------------------------------------------------- one-ring pass (phase 7)

  /** The forward part of a one-ring walk, writing each head it meets for
      vertex `v`: it ends on the half-edge the walk stopped at, says
      whether that half-edge had no twin, and hands on its visited set. */
  method ForwardFill(d: MeshData, v: nat, o: nat, t: Table) returns (t': Table, last: nat, boundary: bool, seen: set<nat>)
    requires Traversable(d) && o < |d.halfEdges| && t.HasSlot(v)
    ensures var w := ForwardFrom(d, o, o, {});
            t' == PutAll(t, v, w.nbrs) && last == w.last && boundary == w.boundary && seen == w.seen
  {
    ghost var W := ForwardFrom(d, o, o, {});
    t' := t;
    boundary := false;
    var visited: set<nat> := {};
    var current: nat := o;
    while true
      invariant current < |d.halfEdges| && visited <= Indices(|d.halfEdges|) && t'.HasSlot(v) && !boundary
      invariant var w := ForwardFrom(d, o, current, visited);
                PutAll(t', v, w.nbrs) == PutAll(t, v, W.nbrs) && w.last == W.last && w.boundary == W.boundary && w.seen == W.seen
      decreases Indices(|d.halfEdges|) - visited
    {
      if current in visited {
        break;
      }
      ghost var w := ForwardFrom(d, o, current, visited);
      ghost var before := t';
      visited := visited + {current};
      var neighbour := d.halfEdges[current].to;
      PutKeepsSlots(t', v, neighbour);
      t' := t'.Put(v, neighbour);
      var twin := d.halfEdges[current].twin;
      if twin == INVALID_INDEX {
        boundary := true;
        assert w.nbrs == [neighbour];
        break;
      }
      var nx: nat := d.halfEdges[twin].next;
      if nx == o {
        assert w.nbrs == [neighbour];
        current := nx;
        break;
      }
      assert w.nbrs == [neighbour] + ForwardFrom(d, o, nx, visited).nbrs;
      assert w.nbrs[1..] == ForwardFrom(d, o, nx, visited).nbrs;
      current := nx;
    }
    last, seen := current, visited;
  }

  /** The backward part: from `cur`, through each valid predecessor to its
      twin, writing the twin's head; a predecessor without a twin
      contributes its tail and ends the walk, as does a twin already seen. */
  method BackwardFill(d: MeshData, v: nat, cur: nat, seen: set<nat>, t: Table) returns (t': Table)
    requires Traversable(d) && cur < |d.halfEdges| && seen <= Indices(|d.halfEdges|) && t.HasSlot(v)
    ensures t' == PutAll(t, v, BackwardFrom(d, cur, seen))
  {
    t' := t;
    var visited := seen;
    var current: nat := cur;
    while true
      invariant current < |d.halfEdges| && visited <= Indices(|d.halfEdges|) && t'.HasSlot(v)
      invariant PutAll(t', v, BackwardFrom(d, current, visited)) == PutAll(t, v, BackwardFrom(d, cur, seen))
      decreases Indices(|d.halfEdges|) - visited
    {
      ghost var rest := BackwardFrom(d, current, visited);
      var p := d.halfEdges[current].prev;
      if !IsValidIndex(p, |d.halfEdges|) {
        assert rest == [];
        break;
      }
      var prevTwin := d.halfEdges[p].twin;
      if prevTwin == INVALID_INDEX {
        var lastNeighbour := Tail(d, p);
        assert rest == [lastNeighbour];
        PutKeepsSlots(t', v, lastNeighbour);
        t' := t'.Put(v, lastNeighbour);
        break;
      }
      if prevTwin in visited {
        assert rest == [];
        break;
      }
      visited := visited + {prevTwin};
      var neighbour := d.halfEdges[prevTwin].to;
      assert rest == [neighbour] + BackwardFrom(d, prevTwin, visited);
      assert rest[1..] == BackwardFrom(d, prevTwin, visited);
      PutKeepsSlots(t', v, neighbour);
      t' := t'.Put(v, neighbour);
      current := prevTwin;
    }
  }

  /** The one-ring writes for vertex `v`: nothing for a vertex without an
      outgoing half-edge; else the forward walk and, when it stopped at a
      border, the backward walk from the outgoing half-edge. */
  method OneRingFill(d: MeshData, v: nat, t: Table) returns (t': Table)
    requires Traversable(d) && v < |d.vertices| && t.HasSlot(v)
    ensures t' == PutAll(t, v, OneRingWalkFromStart(d, v))
  {
    var o := d.vertices[v].outgoing;
    if o == INVALID_INDEX {
      return t;
    }
    var last, boundary, seen;
    t', last, boundary, seen := ForwardFill(d, v, o, t);
    ghost var w := ForwardFrom(d, o, o, {});
    if boundary {
      ghost var mid := t';
      t' := BackwardFill(d, v, o, seen, t');
      PutAllConcat(t, v, w.nbrs, BackwardFrom(d, o, w.seen));
    } else {
      assert w.nbrs + [] == w.nbrs;
    }
  }

  /** The one-ring pass over all vertices, into a zero-filled backing
      array laid out by `off`: every slot holds its vertex's walk, cut to
      the slot's width. */
  method FillOneRings(d: MeshData, off: seq<nat>) returns (flat: seq<nat>)
    requires Traversable(d) && |off| == |d.vertices| + 1 && Monotone(off)
    ensures Holds(off, flat, OneRingLists(d))
  {
    var t := Start(off);
    OneRingsStart(d, off);
    var v := 0;
    while v < |d.vertices|
      invariant 0 <= v <= |d.vertices| && t.off == off && t.Represents(Prefix(OneRingLists(d), v))
    {
      OneRingStep(d, t, v);
      t := OneRingFill(d, v, t);
      v := v + 1;
    }
    assert Prefix(OneRingLists(d), |d.vertices|) == OneRingLists(d);
    flat := t.flat;
  }

  /** A fresh table holds no one-ring yet. */
  lemma OneRingsStart(d: MeshData, off: seq<nat>)
    requires Traversable(d) && |off| == |d.vertices| + 1 && Monotone(off)
    ensures Start(off).Represents(Prefix(OneRingLists(d), 0))
  {
    StartRepresents(off);
    assert Prefix(OneRingLists(d), 0) == seq(|off| - 1, _ => []);
  }

  /** Writing vertex `v`'s walk extends the filled part by one vertex. */
  lemma OneRingStep(d: MeshData, t: Table, v: nat)
    requires Traversable(d) && v < |d.vertices| && t.Represents(Prefix(OneRingLists(d), v))
    ensures t.HasSlot(v) && PutAll(t, v, OneRingWalkFromStart(d, v)).Represents(Prefix(OneRingLists(d), v + 1))
  {
    PrefixFill(t, OneRingLists(d), v);
  }

  // ------------------------------------------------------ face pass (phase 8)

  /** The four tables the face pass fills: vertices and edges keyed by
      face, faces keyed by vertex and faces keyed by edge. */
  datatype FaceTables = FaceTables(fv: Table, fe: Table, vf: Table, ef: Table)

  /** The tables have a slot for face `f`, for every vertex and for every edge. */
  ghost predicate FaceSlots(d: MeshData, f: nat, T: FaceTables)
  {
    && T.fv.HasSlot(f) && T.fe.HasSlot(f)
    && (forall v: nat | v < |d.vertices| :: T.vf.HasSlot(v))
    && (forall e: nat | e < |d.edges| :: T.ef.HasSlot(e))
  }

  /** Writes keep the offset tables. */
  predicate SameLayout(T: FaceTables, T': FaceTables)
  {
    T'.fv.off == T.fv.off && T'.fe.off == T.fe.off && T'.vf.off == T.vf.off && T'.ef.off == T.ef.off
  }

  /** The writes for one half-edge of face `f`: its tail, when a vertex,
      joins the face's vertices and the face joins the vertex's faces; its
      edge, when an edge, joins the face's edges and the face the edge's. */
  ghost function FaceStep(d: MeshData, f: nat, T: FaceTables, h: nat): (T': FaceTables)
    requires Traversable(d) && h < |d.halfEdges| && FaceSlots(d, f, T)
    ensures FaceSlots(d, f, T') && SameLayout(T, T')
  {
    var v := Tail(d, h);
    var e := d.halfEdges[h].edge;
    var T1 := if IsValidIndex(v, |d.vertices|) then
                PutKeepsSlots(T.fv, f, v);
                PutKeepsSlots(T.vf, v, f);
                T.(fv := T.fv.Put(f, v), vf := T.vf.Put(v, f))
              else T;
    if IsValidIndex(e, |d.edges|) then
      PutKeepsSlots(T1.fe, f, e);
      PutKeepsSlots(T1.ef, e, f);
      T1.(fe := T1.fe.Put(f, e), ef := T1.ef.Put(e, f))
    else T1
  }

  /** The writes for the half-edges `hs` of face `f`, in order. */
  ghost function FaceFill(d: MeshData, f: nat, T: FaceTables, hs: seq<nat>): (T': FaceTables)
    requires Traversable(d) && FaceSlots(d, f, T) && forall i | 0 <= i < |hs| :: hs[i] < |d.halfEdges|
    ensures FaceSlots(d, f, T') && SameLayout(T, T')
    decreases |hs|
  {
    if hs == [] then T else FaceFill(d, f, FaceStep(d, f, T, hs[0]), hs[1..])
  }

  /** The face pass over one face: walk it as the counting pass does and
      make the writes of each half-edge met. */
  method FillFace(d: MeshData, f: nat, T: FaceTables) returns (T': FaceTables)
    requires Traversable(d) && f < |d.faces| && FaceSlots(d, f, T)
    ensures T' == FaceFill(d, f, T, FaceLoop(d, f))
  {
    T' := T;
    var start: nat := d.faces[f].edge;
    if !IsValidIndex(start, |d.halfEdges|) {
      return;
    }
    var visited: set<nat> := {};
    var current: nat := start;
    while true
      invariant current < |d.halfEdges| && visited <= Indices(|d.halfEdges|) && FaceSlots(d, f, T')
      invariant FaceFill(d, f, T', FaceLoopFrom(d, start, current, visited)) == FaceFill(d, f, T, FaceLoop(d, f))
      decreases Indices(|d.halfEdges|) - visited
    {
      if current in visited {
        break;
      }
      ghost var rest := FaceLoopFrom(d, start, current, visited);
      ghost var before := T';
      visited := visited + {current};
      var fv, fe, vf, ef := T'.fv, T'.fe, T'.vf, T'.ef;
      var v := Tail(d, current);
      if IsValidIndex(v, |d.vertices|) {
        fv := fv.Put(f, v);
        vf := vf.Put(v, f);
      }
      var e := d.halfEdges[current].edge;
      if IsValidIndex(e, |d.edges|) {
        fe := fe.Put(f, e);
        ef := ef.Put(e, f);
      }
      T' := FaceTables(fv, fe, vf, ef);
      assert T' == FaceStep(d, f, before, current);
      var nx: nat := d.halfEdges[current].next;
      if nx == start || !IsValidIndex(nx, |d.halfEdges|) {
        assert rest == [current];
        break;
      }
      assert rest == [current] + FaceLoopFrom(d, start, nx, visited);
      assert rest[1..] == FaceLoopFrom(d, start, nx, visited);
      current := nx;
    }
  }

  /** What the face pass has written after the first `f` faces: each
      face-keyed table holds the lists of those faces, and each of the
      other two holds those faces scattered over their vertices or edges. */
  ghost predicate FacesFilled(d: MeshData, f: nat, T: FaceTables)
    requires Traversable(d) && f <= |d.faces|
  {
    && T.fv.Represents(Prefix(FaceVertexLists(d), f))
    && T.fe.Represents(Prefix(FaceEdgeLists(d), f))
    && T.vf.Represents(ScatterAll(|d.vertices|, FaceVertexLists(d), f))
    && T.ef.Represents(ScatterAll(|d.edges|, FaceEdgeLists(d), f))
  }

  /** The writes for one face, table by table. */
  lemma {:induction false} FaceFillParts(d: MeshData, f: nat, T: FaceTables, hs: seq<nat>)
    requires Traversable(d) && FaceSlots(d, f, T) && forall i | 0 <= i < |hs| :: hs[i] < |d.halfEdges|
    ensures FaceFill(d, f, T, hs).fv == PutAll(T.fv, f, ValidTails(d, hs))
    ensures FaceFill(d, f, T, hs).vf == PutEach(T.vf, ValidTails(d, hs), f)
    ensures FaceFill(d, f, T, hs).fe == PutAll(T.fe, f, ValidEdges(d, hs))
    ensures FaceFill(d, f, T, hs).ef == PutEach(T.ef, ValidEdges(d, hs), f)
    decreases |hs|
  {
    if hs != [] {
      var h, rest := hs[0], hs[1..];
      var T1 := FaceStep(d, f, T, h);
      FaceFillParts(d, f, T1, rest);
      var v, e := Tail(d, h), d.halfEdges[h].edge;
      var vs, es := ValidTails(d, rest), ValidEdges(d, rest);
      if IsValidIndex(v, |d.vertices|) {
        assert ValidTails(d, hs) == [v] + vs;
        assert ([v] + vs)[1..] == vs;
      } else {
        assert ValidTails(d, hs) == vs;
      }
      if IsValidIndex(e, |d.edges|) {
        assert ValidEdges(d, hs) == [e] + es;
        assert ([e] + es)[1..] == es;
      } else {
        assert ValidEdges(d, hs) == es;
      }
    }
  }

  /** A filled table set has every slot the next face needs. */
  lemma FacesFilledSlots(d: MeshData, f: nat, T: FaceTables)
    requires Traversable(d) && f < |d.faces| && FacesFilled(d, f, T)
    ensures FaceSlots(d, f, T)
  {
    RepresentsSlots(T.fv, Prefix(FaceVertexLists(d), f));
    RepresentsSlots(T.fe, Prefix(FaceEdgeLists(d), f));
    RepresentsSlots(T.vf, ScatterAll(|d.vertices|, FaceVertexLists(d), f));
    RepresentsSlots(T.ef, ScatterAll(|d.edges|, FaceEdgeLists(d), f));
  }

  /** Filling face `f` extends what the face pass has written by that face. */
  lemma FaceFillStep(d: MeshData, f: nat, T: FaceTables)
    requires Traversable(d) && f < |d.faces| && FacesFilled(d, f, T)
    ensures FaceSlots(d, f, T)
    ensures FacesFilled(d, f + 1, FaceFill(d, f, T, FaceLoop(d, f)))
  {
    FacesFilledSlots(d, f, T);
    var hs := FaceLoop(d, f);
    FaceFillParts(d, f, T, hs);
    FaceVertexStep(d, f, T.fv, T.vf);
    FaceEdgeStep(d, f, T.fe, T.ef);
  }

  lemma FaceVertexStep(d: MeshData, f: nat, fv: Table, vf: Table)
    requires Traversable(d) && f < |d.faces|
    requires fv.Represents(Prefix(FaceVertexLists(d), f))
    requires vf.Represents(ScatterAll(|d.vertices|, FaceVertexLists(d), f))
    ensures fv.HasSlot(f) && forall v: nat | v < |d.vertices| :: vf.HasSlot(v)
    ensures var vs := ValidTails(d, FaceLoop(d, f));
            && PutAll(fv, f, vs).Represents(Prefix(FaceVertexLists(d), f + 1))
            && PutEach(vf, vs, f).Represents(ScatterAll(|d.vertices|, FaceVertexLists(d), f + 1))
  {
    var K := FaceVertexLists(d);
    RepresentsSlots(vf, ScatterAll(|d.vertices|, K, f));
    assert K[f] == ValidTails(d, FaceLoop(d, f));
    PrefixFill(fv, K, f);
    PutEachScatters(vf, ScatterAll(|d.vertices|, K, f), K[f], f);
  }

  lemma FaceEdgeStep(d: MeshData, f: nat, fe: Table, ef: Table)
    requires Traversable(d) && f < |d.faces|
    requires fe.Represents(Prefix(FaceEdgeLists(d), f))
    requires ef.Represents(ScatterAll(|d.edges|, FaceEdgeLists(d), f))
    ensures fe.HasSlot(f) && forall e: nat | e < |d.edges| :: ef.HasSlot(e)
    ensures var es := ValidEdges(d, FaceLoop(d, f));
            && PutAll(fe, f, es).Represents(Prefix(FaceEdgeLists(d), f + 1))
            && PutEach(ef, es, f).Represents(ScatterAll(|d.edges|, FaceEdgeLists(d), f + 1))
  {
    var K := FaceEdgeLists(d);
    RepresentsSlots(ef, ScatterAll(|d.edges|, K, f));
    assert K[f] == ValidEdges(d, FaceLoop(d, f));
    PrefixFill(fe, K, f);
    PutEachScatters(ef, ScatterAll(|d.edges|, K, f), K[f], f);
  }

  /** The tables as the face pass starts them hold nothing. */
  lemma FacesStart(d: MeshData, fvOff: seq<nat>, feOff: seq<nat>, vfOff: seq<nat>, efOff: seq<nat>)
    requires Traversable(d)
    requires |fvOff| == |d.faces| + 1 && |feOff| == |d.faces| + 1 && Monotone(fvOff) && Monotone(feOff)
    requires |vfOff| == |d.vertices| + 1 && |efOff| == |d.edges| + 1 && Monotone(vfOff) && Monotone(efOff)
    ensures FacesFilled(d, 0, FaceTables(Start(fvOff), Start(feOff), Start(vfOff), Start(efOff)))
  {
    StartRepresents(fvOff);
    StartRepresents(feOff);
    StartRepresents(vfOff);
    StartRepresents(efOff);
    assert Prefix(FaceVertexLists(d), 0) == seq(|fvOff| - 1, _ => []);
    assert Prefix(FaceEdgeLists(d), 0) == seq(|feOff| - 1, _ => []);
  }

  /** The face pass over all faces, into zero-filled backing arrays laid
      out by the four offset tables. */
  method FillFaces(d: MeshData, fvOff: seq<nat>, feOff: seq<nat>, vfOff: seq<nat>, efOff: seq<nat>)
    returns (faceVertices: seq<nat>, faceEdges: seq<nat>, vertexFaces: seq<nat>, edgeFaces: seq<nat>)
    requires Traversable(d)
    requires |fvOff| == |d.faces| + 1 && |feOff| == |d.faces| + 1 && Monotone(fvOff) && Monotone(feOff)
    requires |vfOff| == |d.vertices| + 1 && |efOff| == |d.edges| + 1 && Monotone(vfOff) && Monotone(efOff)
    ensures Holds(fvOff, faceVertices, FaceVertexLists(d))
    ensures Holds(feOff, faceEdges, FaceEdgeLists(d))
    ensures Holds(vfOff, vertexFaces, VertexFaceLists(d))
    ensures Holds(efOff, edgeFaces, EdgeFaceLists(d))
  {
    var T0 := FaceTables(Start(fvOff), Start(feOff), Start(vfOff), Start(efOff));
    FacesStart(d, fvOff, feOff, vfOff, efOff);
    var T := FillEveryFace(d, T0);
    FacesDone(d, T);
    faceVertices, faceEdges, vertexFaces, edgeFaces := T.fv.flat, T.fe.flat, T.vf.flat, T.ef.flat;
  }

  /** The loop of the face pass: fill the faces in index order. */
  method FillEveryFace(d: MeshData, T0: FaceTables) returns (T: FaceTables)
    requires Traversable(d) && FacesFilled(d, 0, T0)
    ensures FacesFilled(d, |d.faces|, T) && SameLayout(T0, T)
  {
    T := T0;
    var f := 0;
    while f < |d.faces|
      invariant 0 <= f <= |d.faces| && FacesFilled(d, f, T) && SameLayout(T0, T)
    {
      T := FillNextFace(d, f, T);
      f := f + 1;
    }
  }

  /** One turn of the face pass: fill face `f`. */
  method FillNextFace(d: MeshData, f: nat, T: FaceTables) returns (T': FaceTables)
    requires Traversable(d) && f < |d.faces| && FacesFilled(d, f, T)
    ensures FacesFilled(d, f + 1, T') && SameLayout(T, T')
  {
    FaceFillStep(d, f, T);
    T' := FillFace(d, f, T);
  }

  /** After the last face the tables hold the full lists. */
  lemma FacesDone(d: MeshData, T: FaceTables)
    requires Traversable(d) && FacesFilled(d, |d.faces|, T)
    ensures Holds(T.fv.off, T.fv.flat, FaceVertexLists(d))
    ensures Holds(T.fe.off, T.fe.flat, FaceEdgeLists(d))
    ensures Holds(T.vf.off, T.vf.flat, VertexFaceLists(d))
    ensures Holds(T.ef.off, T.ef.flat, EdgeFaceLists(d))
  {
    assert Prefix(FaceVertexLists(d), |d.faces|) == FaceVertexLists(d);
    assert Prefix(FaceEdgeLists(d), |d.faces|) == FaceEdgeLists(d);
  }
}
