// The state of a control mesh as a value: the four record arrays and the
// directed-edge lookup, the link invariants every mesh built through the
// editing operations keeps, and the read-only queries on that state.

module HalfEdgeTopology {
  import opened MeshTypes

  /** The key of the directed-edge lookup: an ordered vertex pair. */
  datatype DirectedKey = DirectedKey(tail: Index32, head: Index32)
  {
    /** The 64-bit form `(tail << 32) | head` the lookup table is keyed by:
        for a 32-bit `head` the bitwise or adds, so it is `tail * 2^32 + head`. */
    function Packed(): (p: nat)
      ensures p < U32_MODULUS * U32_MODULUS
    {
      tail * U32_MODULUS + head
    }
  }

  /** Packing loses nothing: both endpoints can be read back from the
      packed key, so two directed pairs share a packed key only if they are
      the same pair, and a table keyed by packed keys behaves as one keyed
      by pairs. */
  lemma PackedKeyInjective(k1: DirectedKey, k2: DirectedKey)
    ensures k1.Packed() / U32_MODULUS == k1.tail && k1.Packed() % U32_MODULUS == k1.head
    ensures k1.Packed() == k2.Packed() <==> k1 == k2
  {
    var p1, p2 := k1.Packed(), k2.Packed();
    assert p1 / U32_MODULUS == k1.tail && p1 % U32_MODULUS == k1.head;
    assert p2 / U32_MODULUS == k2.tail && p2 % U32_MODULUS == k2.head;
  }

  /** `makeDirectedEdgeKey(v0, v1)`: the high 32 bits of the packed key
      give back `v0` and the low 32 bits `v1`, so the two directions of an
      edge between distinct vertices pack differently. */
  function DirectedEdgeKey(v0: Index32, v1: Index32): (k: DirectedKey)
    ensures k.Packed() / U32_MODULUS == v0 && k.Packed() % U32_MODULUS == v1
    ensures v0 != v1 ==> k.Packed() != DirectedKey(v1, v0).Packed()
  {
    PackedKeyInjective(DirectedKey(v0, v1), DirectedKey(v1, v0));
    DirectedKey(v0, v1)
  }

  /** The two directions of an edge have different keys. */
  lemma DirectedEdgeKeyInjective(a: Index32, b: Index32, c: Index32, d: Index32)
    ensures DirectedEdgeKey(a, b) == DirectedEdgeKey(c, d) <==> a == c && b == d
    ensures a != b ==> DirectedEdgeKey(a, b) != DirectedEdgeKey(b, a)
  {
  }

  /** Successor position in a cyclic list of `n` entries. */
  function Succ(i: nat, n: nat): (j: nat)
    requires i < n
    ensures j < n
  {
    if i + 1 < n then i + 1 else 0
  }

  /** Predecessor position in a cyclic list of `n` entries: the inverse of `Succ`. */
  function Pred(i: nat, n: nat): (j: nat)
    requires i < n
    ensures j < n && Succ(j, n) == i
  {
    if i > 0 then i - 1 else n - 1
  }

  lemma PredSucc(i: nat, n: nat)
    requires i < n
    ensures Pred(Succ(i, n), n) == i
  {
  }

  /** The positions are the source's `(i + 1) % n` and `(i + n - 1) % n`. */
  lemma SuccPredModulo(i: nat, n: nat)
    requires i < n
    ensures Succ(i, n) == (i + 1) % n && Pred(i, n) == (i + n - 1) % n
  {
    ModuloOfSmall(if i + 1 < n then i + 1 else 0, n, if i + 1 < n then 0 else 1);
    ModuloOfSmall(if i > 0 then i - 1 else n - 1, n, if i > 0 then 1 else 0);
  }

  /** `q * n + r` leaves remainder `r` when `r < n`. */
  lemma ModuloOfSmall(r: nat, n: nat, q: nat)
    requires r < n && q <= 1
    ensures (q * n + r) % n == r
  {
    if q == 1 {
      assert (n + r) % n == r;
    }
  }

  /** The arrays and the directed-edge map of a control mesh. `edgeMap` maps
      `DirectedEdgeKey(tail, head)` to a half-edge. */
  datatype MeshData = MeshData(
    vertices: seq<Vertex>,
    halfEdges: seq<HalfEdge>,
    edges: seq<Edge>,
    faces: seq<Face>,
    edgeMap: map<DirectedKey, nat>)
  {
    /** Every array is small enough to be indexed by a 32-bit index other
        than the sentinel. */
    ghost predicate SizesFit()
    {
      |vertices| < INVALID_INDEX && |halfEdges| < INVALID_INDEX
      && |edges| < INVALID_INDEX && |faces| < INVALID_INDEX
    }

    /** Every link of `he` names an existing element; only `twin` may be unset. */
    predicate LinksOk(he: HalfEdge)
    {
      he.to < |vertices| && he.next < |halfEdges| && he.prev < |halfEdges|
      && he.face < |faces| && he.edge < |edges|
      && (he.twin == INVALID_INDEX || he.twin < |halfEdges|)
    }

    ghost predicate LinksInRange()
    {
      SizesFit()
      && (forall h | 0 <= h < |halfEdges| :: LinksOk(halfEdges[h]))
      && (forall v | 0 <= v < |vertices| ::
            vertices[v].outgoing == INVALID_INDEX || vertices[v].outgoing < |halfEdges|)
      && (forall f | 0 <= f < |faces| :: faces[f].edge < |halfEdges|)
    }

    /** `getFromVertex`: the tail of a half-edge is the head of its
        predecessor, or the sentinel when the predecessor is unset. */
    function FromVertex(h: nat): (v: nat)
      requires h < |halfEdges|
      requires halfEdges[h].prev == INVALID_INDEX || halfEdges[h].prev < |halfEdges|
    {
      var p := halfEdges[h].prev;
      if p == INVALID_INDEX then INVALID_INDEX else halfEdges[p].to
    }

    /** The key under which half-edge `h` would be registered. */
    function KeyOf(h: nat): DirectedKey
      requires LinksInRange() && h < |halfEdges|
    {
      DirectedEdgeKey(FromVertex(h), halfEdges[h].to)
    }

    /** In a mesh whose links are in range, tails and heads are vertices. */
    lemma EndpointsAreVertices(h: nat)
      requires LinksInRange() && h < |halfEdges|
      ensures FromVertex(h) < |vertices| && halfEdges[h].to < |vertices|
      ensures FromVertex(halfEdges[h].next) == halfEdges[h].to || halfEdges[halfEdges[h].next].prev != h
    {
    }

    /** The twin of a half-edge runs the other way. */
    lemma TwinKey(h: nat)
      requires LinksInRange() && TwinsPaired() && h < |halfEdges|
      ensures halfEdges[h].twin != INVALID_INDEX ==>
                KeyOf(halfEdges[h].twin) == DirectedEdgeKey(halfEdges[h].to, FromVertex(h))
    {
    }

    /** Face `f` owns the contiguous block of half-edges
        `[edge, edge + valence)`, wired into one next/prev cycle in order. */
    ghost predicate FaceLaidOut(f: nat)
      requires LinksInRange() && f < |faces|
    {
      var b, n := faces[f].edge, faces[f].valence;
      n >= 3 && b + n <= |halfEdges|
      && forall h | b <= h < b + n ::
           halfEdges[h].face == f
           && halfEdges[h].next == b + Succ(h - b, n)
           && halfEdges[h].prev == b + Pred(h - b, n)
    }

    ghost predicate FacesLaidOut()
      requires LinksInRange()
    {
      forall f | 0 <= f < |faces| :: FaceLaidOut(f)
    }

    /** Every half-edge lies in the block of the face it names. */
    ghost predicate HalfEdgesInTheirFaces()
      requires LinksInRange()
    {
      forall h | 0 <= h < |halfEdges| ::
        faces[halfEdges[h].face].edge <= h < faces[halfEdges[h].face].edge + faces[halfEdges[h].face].valence
    }

    /** Twins point at each other, run in opposite directions and share their edge. */
    ghost predicate TwinsPaired()
      requires LinksInRange()
    {
      forall h {:trigger halfEdges[h].twin} | 0 <= h < |halfEdges| && halfEdges[h].twin != INVALID_INDEX ::
        halfEdges[h].twin != h
        && halfEdges[halfEdges[h].twin].twin == h
        && halfEdges[halfEdges[h].twin].edge == halfEdges[h].edge
        && halfEdges[halfEdges[h].twin].to == FromVertex(h)
    }

    ghost predicate EdgeInUse(e: nat)
    {
      exists h | 0 <= h < |halfEdges| :: halfEdges[h].edge == e
    }

    /** No edge record is orphaned. */
    ghost predicate EdgesUsed()
    {
      forall e | 0 <= e < |edges| :: EdgeInUse(e)
    }

    /** Two different half-edges on one edge are twins, so an edge has at
        most two half-edges. */
    ghost predicate EdgesShared()
      requires LinksInRange()
    {
      forall h1, h2 | 0 <= h1 < |halfEdges| && 0 <= h2 < |halfEdges| && h1 != h2
                      && halfEdges[h1].edge == halfEdges[h2].edge ::
        halfEdges[h1].twin == h2
    }

    /** Every map entry names a half-edge running in the direction of its key. */
    ghost predicate MapSound()
      requires LinksInRange()
    {
      forall k | k in edgeMap :: edgeMap[k] < |halfEdges| && KeyOf(edgeMap[k]) == k
    }

    ghost predicate Registered(h: nat)
      requires LinksInRange() && h < |halfEdges|
    {
      KeyOf(h) in edgeMap && edgeMap[KeyOf(h)] == h
    }

    /** Every half-edge is registered under its own key, or is the twin of
        one that is (addFace registers only the first half-edge of an edge). */
    ghost predicate MapCovers()
      requires LinksInRange()
    {
      forall h {:trigger halfEdges[h].twin} | 0 <= h < |halfEdges| ::
        Registered(h) || (halfEdges[h].twin != INVALID_INDEX && Registered(halfEdges[h].twin))
    }

    /** No directed vertex pair is carried by two half-edges. */
    ghost predicate DirectedPairsUnique()
      requires LinksInRange()
    {
      forall h1, h2 | 0 <= h1 < |halfEdges| && 0 <= h2 < |halfEdges| && h1 != h2 ::
        KeyOf(h1) != KeyOf(h2)
    }

    /** Two half-edges running in opposite directions between the same
        two vertices are twins: an edge carries at most one half-edge each way,
        and they are linked. */
    ghost predicate OppositesPaired()
      requires LinksInRange()
    {
      forall h1, h2 {:trigger FromVertex(h1), FromVertex(h2)} | 0 <= h1 < |halfEdges| && 0 <= h2 < |halfEdges|
                      && FromVertex(h1) == halfEdges[h2].to && halfEdges[h1].to == FromVertex(h2) ::
        halfEdges[h1].twin == h2
    }

    /** No half-edge starts and ends at the same vertex. */
    ghost predicate NoLoops()
      requires LinksInRange()
    {
      forall h {:trigger FromVertex(h)} | 0 <= h < |halfEdges| :: FromVertex(h) != halfEdges[h].to
    }

    /** A vertex's outgoing half-edge starts at it, and a vertex with some
        outgoing half-edge has its pointer set. */
    ghost predicate OutgoingSound()
      requires LinksInRange()
    {
      (forall v | 0 <= v < |vertices| && vertices[v].outgoing != INVALID_INDEX ::
         FromVertex(vertices[v].outgoing) == v)
      && (forall h | 0 <= h < |halfEdges| :: vertices[FromVertex(h)].outgoing != INVALID_INDEX)
    }

    /** The invariant every mesh built by addVertex/addFace keeps. */
    ghost predicate WellFormed()
    {
      LinksInRange() && FacesLaidOut() && HalfEdgesInTheirFaces() && TwinsPaired()
      && EdgesUsed() && EdgesShared() && MapSound() && MapCovers()
      && DirectedPairsUnique() && OppositesPaired() && NoLoops() && OutgoingSound()
    }

    /** `numVertices() == 0`. */
    predicate IsEmpty() { |vertices| == 0 }

    /** `findHalfEdge`: the half-edge from `v0` to `v1`, looked up by its own
        key, or else as the twin of the registered reverse half-edge. */
    function FindHalfEdge(v0: Index32, v1: Index32): (h: nat)
      requires LinksInRange() && MapSound() && TwinsPaired()
      ensures h == INVALID_INDEX || (h < |halfEdges| && FromVertex(h) == v0 && halfEdges[h].to == v1)
    {
      var key := DirectedEdgeKey(v0, v1);
      var reverse := DirectedEdgeKey(v1, v0);
      if key in edgeMap then
        DirectedEdgeKeyInjective(FromVertex(edgeMap[key]), halfEdges[edgeMap[key]].to, v0, v1);
        edgeMap[key]
      else if reverse in edgeMap && halfEdges[edgeMap[reverse]].twin != INVALID_INDEX then
        var r := edgeMap[reverse];
        DirectedEdgeKeyInjective(FromVertex(r), halfEdges[r].to, v1, v0);
        halfEdges[r].twin
      else
        INVALID_INDEX
    }

    /** In a well-formed mesh the lookup finds every half-edge by its
        endpoints, so it returns the sentinel exactly when no half-edge runs
        from `v0` to `v1`. */
    lemma FindHalfEdgeFinds(h: nat)
      requires LinksInRange() && TwinsPaired() && MapSound() && MapCovers() && DirectedPairsUnique()
      requires h < |halfEdges|
      ensures FromVertex(h) < |vertices| && halfEdges[h].to < |vertices|
      ensures FindHalfEdge(FromVertex(h), halfEdges[h].to) == h
    {
      EndpointsAreVertices(h);
      var key := KeyOf(h);
      if key in edgeMap {
        assert KeyOf(edgeMap[key]) == KeyOf(h);
      } else {
        var t := halfEdges[h].twin;
        EndpointsAreVertices(t);
        assert KeyOf(t) == DirectedEdgeKey(halfEdges[h].to, FromVertex(h));
      }
    }

    lemma FindHalfEdgeMisses(v0: Index32, v1: Index32)
      requires WellFormed()
      ensures FindHalfEdge(v0, v1) == INVALID_INDEX <==>
                forall h | 0 <= h < |halfEdges| :: !(FromVertex(h) == v0 && halfEdges[h].to == v1)
    {
      forall h | 0 <= h < |halfEdges| && FromVertex(h) == v0 && halfEdges[h].to == v1
        ensures FindHalfEdge(v0, v1) == h
      {
        FindHalfEdgeFinds(h);
      }
    }

    /** `findEdge`: the edge shared by the two directions between `v0` and `v1`. */
    function FindEdge(v0: Index32, v1: Index32): (e: nat)
      requires LinksInRange() && MapSound() && TwinsPaired()
      ensures e == INVALID_INDEX || e < |edges|
    {
      var h := FindHalfEdge(v0, v1);
      var h' := if h == INVALID_INDEX then FindHalfEdge(v1, v0) else h;
      if h' == INVALID_INDEX then INVALID_INDEX else halfEdges[h'].edge
    }
  }

  /** In a well-formed mesh `findEdge` does not depend on the order of its
      arguments. */
  lemma FindEdgeSymmetric(d: MeshData, a: Index32, b: Index32)
    requires d.WellFormed()
    ensures d.FindEdge(a, b) == d.FindEdge(b, a)
  {
    d.FindHalfEdgeMisses(a, b);
    d.FindHalfEdgeMisses(b, a);
    var h, h2 := d.FindHalfEdge(a, b), d.FindHalfEdge(b, a);
    if h != INVALID_INDEX && h2 != INVALID_INDEX {
      assert d.halfEdges[h].twin == h2;
    }
  }

  /** The state of a freshly constructed or cleared mesh. */
  function EmptyMesh(): (d: MeshData)
    ensures d.WellFormed() && d.IsEmpty()
    ensures |d.halfEdges| == 0 && |d.edges| == 0 && |d.faces| == 0 && d.edgeMap == map[]
  {
    MeshData([], [], [], [], map[])
  }
}
