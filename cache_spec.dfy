// What each pass of the topology cache build computes, stated over a mesh
// snapshot: the per-edge endpoints, face counts and border flags of the
// half-edge pass, per-vertex valences and border flags, the incidence
// counts, and the lists the compressed-sparse-row tables are filled with.
// The lemmas say what these are in terms of the mesh.

module CacheSpec {
  import opened MeshTypes
  import opened HalfEdgeTopology
  import opened CacheWalks
  import opened Csr

  /** Valences are stored as 16-bit counters. */
  const VALENCE_MODULUS: nat := 0x1_0000

  /** The two endpoints the cache stores for an edge. */
  datatype EdgeEnds = EdgeEnds(v0: nat, v1: nat)

  /** The endpoints of an edge no half-edge has described yet. */
  function Unset(): (r: EdgeEnds)
    ensures r.v0 == INVALID_INDEX && r.v1 == INVALID_INDEX
  {
    EdgeEnds(INVALID_INDEX, INVALID_INDEX)
  }

  /** Endpoints in canonical order: the smaller first. */
  function Canonical(a: nat, b: nat): (r: EdgeEnds)
    ensures r.v0 <= r.v1
    ensures (r.v0 == a && r.v1 == b) || (r.v0 == b && r.v1 == a)
  {
    if a > b then EdgeEnds(b, a) else EdgeEnds(a, b)
  }

  /** The order the endpoints come in does not matter. */
  lemma CanonicalSymmetric(a: nat, b: nat)
    ensures Canonical(a, b) == Canonical(b, a)
  {
  }

  // ------------------------------------------------------ half-edge pass

  /** The edge endpoints after the half-edge pass has seen half-edges
      `0 .. n-1`: each half-edge with a valid edge whose endpoints are
      still unset writes its own endpoints, in canonical order. */
  function EdgeEndsAfter(d: MeshData, n: nat): (ends: seq<EdgeEnds>)
    requires Traversable(d) && n <= |d.halfEdges|
    ensures |ends| == |d.edges|
  {
    if n == 0 then seq(|d.edges|, _ => Unset())
    else
      var ends := EdgeEndsAfter(d, n - 1);
      var e := d.halfEdges[n - 1].edge;
      if IsValidIndex(e, |d.edges|) && ends[e].v0 == INVALID_INDEX then
        ends[e := Canonical(Tail(d, n - 1), d.halfEdges[n - 1].to)]
      else ends
  }

  /** The half-edges among `0 .. n-1` on edge `e` that bound a face. */
  function FacedOn(d: MeshData, e: nat, n: nat): (s: set<nat>)
    requires n <= |d.halfEdges|
    ensures forall h: nat :: h in s <==> h < n && d.halfEdges[h].edge == e && d.halfEdges[h].face != INVALID_INDEX
  {
    set h | 0 <= h < n && d.halfEdges[h].edge == e && d.halfEdges[h].face != INVALID_INDEX
  }

  /** Some half-edge among `0 .. n-1` on edge `e` has a twin. */
  ghost predicate Twinned(d: MeshData, e: nat, n: nat)
    requires n <= |d.halfEdges|
  {
    exists h | 0 <= h < n :: d.halfEdges[h].edge == e && d.halfEdges[h].twin != INVALID_INDEX
  }

  /** The border flag of edge `e` after the pass: 1 unless one of its
      half-edges has a twin. */
  ghost function EdgeBorderFlag(d: MeshData, e: nat): (b: nat)
    ensures b <= 1
  {
    if Twinned(d, e, |d.halfEdges|) then 0 else 1
  }

  /** The border flags of all edges. */
  ghost function EdgeBorderFlags(d: MeshData): (flags: seq<nat>)
    ensures |flags| == |d.edges|
    ensures forall e | 0 <= e < |d.edges| :: flags[e] == EdgeBorderFlag(d, e)
  {
    seq(|d.edges|, e requires 0 <= e < |d.edges| => EdgeBorderFlag(d, e))
  }

  /** Every half-edge of a well-formed mesh described its edge: the
      endpoints stored for the edge of any half-edge are that half-edge's
      endpoints in canonical order, whichever of the two came first. */
  lemma EdgeEndsMeaning(d: MeshData, h: nat)
    requires d.LinksInRange() && d.TwinsPaired() && d.EdgesShared() && h < |d.halfEdges|
    ensures Traversable(d) && d.halfEdges[h].edge < |d.edges|
    ensures EdgeEndsAfter(d, |d.halfEdges|)[d.halfEdges[h].edge] == Canonical(Tail(d, h), d.halfEdges[h].to)
  {
    SharedEdgesAgree(d);
    EdgeEndsUpTo(d, |d.halfEdges|, h);
  }

  /** The endpoints of a half-edge with links in range are vertices, so
      their canonical pair is set. */
  lemma CanonicalIsSet(d: MeshData, h: nat)
    requires d.LinksInRange() && Traversable(d) && h < |d.halfEdges|
    ensures d.halfEdges[h].edge < |d.edges|
    ensures Canonical(Tail(d, h), d.halfEdges[h].to).v0 < |d.vertices|
    ensures Canonical(Tail(d, h), d.halfEdges[h].to).v0 != INVALID_INDEX
  {
    assert d.LinksOk(d.halfEdges[h]);
    assert d.LinksOk(d.halfEdges[d.halfEdges[h].prev]);
  }

  /** Two half-edges on one edge have the same canonical endpoints. */
  lemma SameEdgeSameEnds(d: MeshData, h1: nat, h2: nat)
    requires d.LinksInRange() && d.TwinsPaired() && d.EdgesShared() && Traversable(d)
    requires h1 < |d.halfEdges| && h2 < |d.halfEdges| && d.halfEdges[h1].edge == d.halfEdges[h2].edge
    ensures Canonical(Tail(d, h1), d.halfEdges[h1].to) == Canonical(Tail(d, h2), d.halfEdges[h2].to)
  {
    if h1 != h2 {
      assert d.halfEdges[h1].twin == h2;
      assert d.halfEdges[h2].to == d.FromVertex(h1);
      assert d.halfEdges[h2].twin == h1;
      assert d.halfEdges[h1].to == d.FromVertex(h2);
    }
  }

  /** Every half-edge names an edge and has a vertex at each end, so its
      canonical pair is set. */
  ghost predicate EndsSet(d: MeshData)
    requires Traversable(d)
  {
    && (forall h {:trigger d.halfEdges[h].edge} | 0 <= h < |d.halfEdges| :: d.halfEdges[h].edge < |d.edges|)
    && (forall h {:trigger Canonical(Tail(d, h), d.halfEdges[h].to)} | 0 <= h < |d.halfEdges| ::
          Canonical(Tail(d, h), d.halfEdges[h].to).v0 != INVALID_INDEX)
  }

  /** Half-edges on one edge have the same canonical endpoints. */
  ghost predicate EndsAgree(d: MeshData)
    requires Traversable(d)
  {
    forall h1, h2 {:trigger Canonical(Tail(d, h1), d.halfEdges[h1].to), Canonical(Tail(d, h2), d.halfEdges[h2].to)}
      | 0 <= h1 < |d.halfEdges| && 0 <= h2 < |d.halfEdges| && d.halfEdges[h1].edge == d.halfEdges[h2].edge ::
      Canonical(Tail(d, h1), d.halfEdges[h1].to) == Canonical(Tail(d, h2), d.halfEdges[h2].to)
  }

  lemma SharedEdgesAgree(d: MeshData)
    requires d.LinksInRange() && d.TwinsPaired() && d.EdgesShared()
    ensures Traversable(d) && EndsAgree(d) && EndsSet(d)
  {
    LinkedTraversable(d);
    forall h | 0 <= h < |d.halfEdges|
      ensures d.halfEdges[h].edge < |d.edges| && Canonical(Tail(d, h), d.halfEdges[h].to).v0 != INVALID_INDEX
    {
      CanonicalIsSet(d, h);
    }
    forall h1, h2 | 0 <= h1 < |d.halfEdges| && 0 <= h2 < |d.halfEdges| && d.halfEdges[h1].edge == d.halfEdges[h2].edge
      ensures Canonical(Tail(d, h1), d.halfEdges[h1].to) == Canonical(Tail(d, h2), d.halfEdges[h2].to)
    {
      SameEdgeSameEnds(d, h1, h2);
    }
  }

  /** The invariant of the pass: once half-edge `h` has been seen, its
      edge holds its canonical endpoints, whichever half-edge of the edge
      wrote them. */
  lemma {:induction false} EdgeEndsUpTo(d: MeshData, n: nat, h: nat)
    requires Traversable(d) && EndsAgree(d) && EndsSet(d)
    requires h < n <= |d.halfEdges|
    ensures d.halfEdges[h].edge < |d.edges|
    ensures EdgeEndsAfter(d, n)[d.halfEdges[h].edge] == Canonical(Tail(d, h), d.halfEdges[h].to)
    decreases n, 1
  {
    if h == n - 1 {
      EdgeEndsNewest(d, n);
    } else {
      EdgeEndsUpTo(d, n - 1, h);
      EdgeEndsKept(d, n, d.halfEdges[h].edge);
    }
  }

  /** The half-edge just seen either writes its edge or finds it already
      written by its twin, with the same endpoints. */
  lemma {:induction false} EdgeEndsNewest(d: MeshData, n: nat)
    requires Traversable(d) && EndsAgree(d) && EndsSet(d)
    requires 0 < n <= |d.halfEdges|
    ensures d.halfEdges[n - 1].edge < |d.edges|
    ensures EdgeEndsAfter(d, n)[d.halfEdges[n - 1].edge] == Canonical(Tail(d, n - 1), d.halfEdges[n - 1].to)
    decreases n, 0
  {
    var e := d.halfEdges[n - 1].edge;
    var c := Canonical(Tail(d, n - 1), d.halfEdges[n - 1].to);
    var prev := EdgeEndsAfter(d, n - 1);
    assert IsValidIndex(e, |d.edges|);
    if prev[e].v0 != INVALID_INDEX {
      var h' := EndsDescribedUpTo(d, e, n - 1);
      EdgeEndsUpTo(d, n - 1, h');
      assert prev[e] == c;
      assert EdgeEndsAfter(d, n) == prev;
    } else {
      assert EdgeEndsAfter(d, n) == prev[e := c];
    }
  }

  /** Set endpoints are never overwritten. */
  lemma EdgeEndsKept(d: MeshData, n: nat, e: nat)
    requires Traversable(d) && 0 < n <= |d.halfEdges| && e < |d.edges|
    requires EdgeEndsAfter(d, n - 1)[e].v0 != INVALID_INDEX
    ensures EdgeEndsAfter(d, n)[e] == EdgeEndsAfter(d, n - 1)[e]
  {
  }

  /** The half-edges of edge `e` in a well-formed mesh: one half-edge
      `h0`, and possibly its twin. */
  lemma EdgeMates(d: MeshData, e: nat) returns (h0: nat)
    requires d.LinksInRange() && d.EdgesUsed() && d.EdgesShared() && d.TwinsPaired() && e < |d.edges|
    ensures h0 < |d.halfEdges| && d.halfEdges[h0].edge == e && d.halfEdges[h0].face != INVALID_INDEX
    ensures forall h | 0 <= h < |d.halfEdges| && d.halfEdges[h].edge == e :: h == h0 || h == d.halfEdges[h0].twin
    ensures var t := d.halfEdges[h0].twin;
            t != INVALID_INDEX ==>
              t < |d.halfEdges| && t != h0 && d.halfEdges[t].edge == e
              && d.halfEdges[t].twin != INVALID_INDEX && d.halfEdges[t].face != INVALID_INDEX
  {
    assert d.EdgeInUse(e);
    h0 :| 0 <= h0 < |d.halfEdges| && d.halfEdges[h0].edge == e;
    assert d.LinksOk(d.halfEdges[h0]);
    var t := d.halfEdges[h0].twin;
    forall h | 0 <= h < |d.halfEdges| && d.halfEdges[h].edge == e
      ensures h == h0 || h == t
    {
      if h != h0 {
        assert d.halfEdges[h0].twin == h;
      }
    }
    if t != INVALID_INDEX {
      assert d.LinksOk(d.halfEdges[t]);
      assert d.halfEdges[t].twin == h0;
    }
  }

  /** In a well-formed mesh every edge has a half-edge; it is a border
      edge exactly when its half-edges have no twin, and it bounds one face
      when it is a border edge and two otherwise. */
  lemma EdgeFaceCount(d: MeshData, e: nat)
    requires d.LinksInRange() && d.EdgesUsed() && d.EdgesShared() && d.TwinsPaired() && e < |d.edges|
    ensures exists h | 0 <= h < |d.halfEdges| :: d.halfEdges[h].edge == e
    ensures forall h | 0 <= h < |d.halfEdges| && d.halfEdges[h].edge == e ::
              (EdgeBorderFlag(d, e) == 1 <==> d.halfEdges[h].twin == INVALID_INDEX)
    ensures |FacedOn(d, e, |d.halfEdges|)| == if EdgeBorderFlag(d, e) == 1 then 1 else 2
  {
    var h0 := EdgeMates(d, e);
    EdgeFaceCountOfMates(d, e, h0);
  }

  lemma EdgeFaceCountOfMates(d: MeshData, e: nat, h0: nat)
    requires d.SizesFit() && h0 < |d.halfEdges| && d.halfEdges[h0].edge == e && d.halfEdges[h0].face != INVALID_INDEX
    requires forall h | 0 <= h < |d.halfEdges| && d.halfEdges[h].edge == e :: h == h0 || h == d.halfEdges[h0].twin
    requires var t := d.halfEdges[h0].twin;
             t != INVALID_INDEX ==>
               t < |d.halfEdges| && t != h0 && d.halfEdges[t].edge == e
               && d.halfEdges[t].twin != INVALID_INDEX && d.halfEdges[t].face != INVALID_INDEX
    ensures exists h | 0 <= h < |d.halfEdges| :: d.halfEdges[h].edge == e
    ensures forall h | 0 <= h < |d.halfEdges| && d.halfEdges[h].edge == e ::
              (EdgeBorderFlag(d, e) == 1 <==> d.halfEdges[h].twin == INVALID_INDEX)
    ensures |FacedOn(d, e, |d.halfEdges|)| == if EdgeBorderFlag(d, e) == 1 then 1 else 2
  {
    var t := d.halfEdges[h0].twin;
    var s := FacedOn(d, e, |d.halfEdges|);
    if t == INVALID_INDEX {
      assert !Twinned(d, e, |d.halfEdges|);
      assert s == {h0};
    } else {
      assert Twinned(d, e, |d.halfEdges|);
      assert s == {h0, t};
    }
  }

  // ------------------------------------------------------ vertex passes

  /** How many endpoint slots among the first `k` edges name `v`; an edge
      with both endpoints `v` counts twice, as the valence pass adds one
      per slot. */
  function Hits(ends: seq<EdgeEnds>, k: nat, v: nat): nat
    requires k <= |ends|
  {
    if k == 0 then 0
    else Hits(ends, k - 1, v) + (if ends[k - 1].v0 == v then 1 else 0) + (if ends[k - 1].v1 == v then 1 else 0)
  }

  /** The per-vertex valences: the endpoint hits, as 16-bit counters. */
  function Valences(ends: seq<EdgeEnds>, numVertices: nat): (val: seq<nat>)
    ensures |val| == numVertices
    ensures forall v | 0 <= v < numVertices :: val[v] < VALENCE_MODULUS
  {
    seq(numVertices, v requires 0 <= v => Hits(ends, |ends|, v) % VALENCE_MODULUS)
  }

  /** The edges among the first `k` whose stored endpoints include `v`. */
  function IncidentEdges(ends: seq<EdgeEnds>, k: nat, v: nat): (s: set<nat>)
    requires k <= |ends|
    ensures forall e: nat :: e in s <==> e < k && (ends[e].v0 == v || ends[e].v1 == v)
  {
    set e | 0 <= e < k && (ends[e].v0 == v || ends[e].v1 == v)
  }

  /** When no edge has both endpoints equal, a vertex's hits are the
      number of edges incident to it. */
  lemma {:induction false} HitsCountEdges(ends: seq<EdgeEnds>, k: nat, v: nat)
    requires k <= |ends| && forall e | 0 <= e < |ends| :: ends[e].v0 != ends[e].v1
    ensures Hits(ends, k, v) == |IncidentEdges(ends, k, v)|
  {
    if k > 0 {
      HitsCountEdges(ends, k - 1, v);
      var e := k - 1;
      if ends[e].v0 == v || ends[e].v1 == v {
        assert IncidentEdges(ends, k, v) == IncidentEdges(ends, k - 1, v) + {e};
      } else {
        assert IncidentEdges(ends, k, v) == IncidentEdges(ends, k - 1, v);
      }
    }
  }

  /** The edges of the mesh with a half-edge that starts or ends at `v`. */
  ghost function MeshIncidentEdges(d: MeshData, v: nat): (s: set<nat>)
    requires Traversable(d)
  {
    set h | 0 <= h < |d.halfEdges| && (Tail(d, h) == v || d.halfEdges[h].to == v) :: d.halfEdges[h].edge
  }

  /** In a well-formed mesh the valence the cache stores for a vertex is
      the number of edges incident to it, as a 16-bit counter. */
  lemma ValenceCountsEdges(d: MeshData, v: nat)
    requires d.LinksInRange() && d.TwinsPaired() && d.EdgesShared() && d.EdgesUsed() && d.NoLoops()
    requires v < |d.vertices|
    ensures Traversable(d)
    ensures Valences(EdgeEndsAfter(d, |d.halfEdges|), |d.vertices|)[v] == |MeshIncidentEdges(d, v)| % VALENCE_MODULUS
  {
    SharedEdgesAgree(d);
    var ends := EdgeEndsAfter(d, |d.halfEdges|);
    forall e | 0 <= e < |ends|
      ensures ends[e].v0 != ends[e].v1
      ensures e in IncidentEdges(ends, |ends|, v) <==> e in MeshIncidentEdges(d, v)
    {
      var h := UsedEdge(d, e);
      EdgeEndsUpTo(d, |d.halfEdges|, h);
      assert Tail(d, h) != d.halfEdges[h].to;
      if e in MeshIncidentEdges(d, v) {
        var h' :| 0 <= h' < |d.halfEdges| && (Tail(d, h') == v || d.halfEdges[h'].to == v) && d.halfEdges[h'].edge == e;
        EdgeEndsUpTo(d, |d.halfEdges|, h');
      }
    }
    HitsCountEdges(ends, |ends|, v);
    assert IncidentEdges(ends, |ends|, v) == MeshIncidentEdges(d, v);
  }

  /** Some half-edge lies on each edge of a mesh whose edges are all used. */
  lemma UsedEdge(d: MeshData, e: nat) returns (h: nat)
    requires d.EdgesUsed() && e < |d.edges|
    ensures h < |d.halfEdges| && d.halfEdges[h].edge == e
  {
    assert d.EdgeInUse(e);
    h :| 0 <= h < |d.halfEdges| && d.halfEdges[h].edge == e;
  }

  /** Some border edge among the first `k` has `v` as an endpoint. */
  ghost predicate BorderBelow(ends: seq<EdgeEnds>, border: seq<nat>, k: nat, v: nat)
    requires k <= |ends| == |border|
  {
    exists e | 0 <= e < k :: border[e] != 0 && (ends[e].v0 == v || ends[e].v1 == v)
  }

  /** The border flag of a vertex: 1 when some border edge has it as an
      endpoint. */
  ghost predicate OnBorderEdge(ends: seq<EdgeEnds>, border: seq<nat>, v: nat)
    requires |border| == |ends|
  {
    BorderBelow(ends, border, |ends|, v)
  }

  ghost function VertexBorderFlags(ends: seq<EdgeEnds>, border: seq<nat>, numVertices: nat): (flags: seq<nat>)
    requires |border| == |ends|
    ensures |flags| == numVertices
    ensures forall v | 0 <= v < numVertices :: flags[v] <= 1
  {
    seq(numVertices, v requires 0 <= v => if OnBorderEdge(ends, border, v) then 1 else 0)
  }

  /** A half-edge without a twin is alone on its edge, so its edge is a
      border edge. */
  lemma UntwinnedIsBorder(d: MeshData, h: nat)
    requires d.LinksInRange() && d.TwinsPaired() && d.EdgesShared() && h < |d.halfEdges|
    requires d.halfEdges[h].twin == INVALID_INDEX
    ensures EdgeBorderFlag(d, d.halfEdges[h].edge) == 1
  {
    var e := d.halfEdges[h].edge;
    forall h2 | 0 <= h2 < |d.halfEdges| && d.halfEdges[h2].edge == e
      ensures d.halfEdges[h2].twin == INVALID_INDEX
    {
      if h2 != h {
        assert false;
      }
    }
  }

  /** In a well-formed mesh a vertex is flagged when it is an endpoint of
      a half-edge without a twin ... */
  lemma BorderVertexFlagged(d: MeshData, v: nat, h: nat)
    requires d.LinksInRange() && d.TwinsPaired() && d.EdgesShared()
    requires h < |d.halfEdges| && d.halfEdges[h].twin == INVALID_INDEX
    ensures Traversable(d)
    ensures (Tail(d, h) == v || d.halfEdges[h].to == v) ==>
              OnBorderEdge(EdgeEndsAfter(d, |d.halfEdges|), EdgeBorderFlags(d), v)
  {
    EdgeEndsMeaning(d, h);
    UntwinnedIsBorder(d, h);
    var e := d.halfEdges[h].edge;
    var ends := EdgeEndsAfter(d, |d.halfEdges|);
    if Tail(d, h) == v || d.halfEdges[h].to == v {
      assert EdgeBorderFlags(d)[e] != 0 && (ends[e].v0 == v || ends[e].v1 == v);
    }
  }

  /** ... and only then. */
  lemma FlaggedVertexOnBorder(d: MeshData, v: nat)
    requires d.LinksInRange() && d.TwinsPaired() && d.EdgesShared() && v < |d.vertices|
    ensures Traversable(d)
    ensures OnBorderEdge(EdgeEndsAfter(d, |d.halfEdges|), EdgeBorderFlags(d), v) ==>
              exists h | 0 <= h < |d.halfEdges| ::
                d.halfEdges[h].twin == INVALID_INDEX && (Tail(d, h) == v || d.halfEdges[h].to == v)
  {
    SharedEdgesAgree(d);
    FlaggedFromAgreement(d, v);
  }

  lemma FlaggedFromAgreement(d: MeshData, v: nat)
    requires d.LinksInRange() && Traversable(d) && EndsAgree(d) && EndsSet(d) && v < |d.vertices|
    ensures OnBorderEdge(EdgeEndsAfter(d, |d.halfEdges|), EdgeBorderFlags(d), v) ==>
              exists h | 0 <= h < |d.halfEdges| ::
                d.halfEdges[h].twin == INVALID_INDEX && (Tail(d, h) == v || d.halfEdges[h].to == v)
  {
    var ends := EdgeEndsAfter(d, |d.halfEdges|);
    var border := EdgeBorderFlags(d);
    if OnBorderEdge(ends, border, v) {
      var e :| 0 <= e < |ends| && border[e] != 0 && (ends[e].v0 == v || ends[e].v1 == v);
      assert ends[e] != Unset();
      var h := EndsAreDescribed(d, e);
      EdgeEndsUpTo(d, |d.halfEdges|, h);
      assert !Twinned(d, e, |d.halfEdges|);
      assert d.halfEdges[h].twin == INVALID_INDEX;
    }
  }

  /** An edge whose endpoints are set was described by some half-edge. */
  lemma EndsAreDescribed(d: MeshData, e: nat) returns (h: nat)
    requires Traversable(d) && e < |d.edges|
    requires EdgeEndsAfter(d, |d.halfEdges|)[e] != Unset()
    ensures h < |d.halfEdges| && d.halfEdges[h].edge == e
  {
    h := EndsDescribedUpTo(d, e, |d.halfEdges|);
  }

  lemma {:induction false} EndsDescribedUpTo(d: MeshData, e: nat, n: nat) returns (h: nat)
    requires Traversable(d) && e < |d.edges| && n <= |d.halfEdges|
    requires EdgeEndsAfter(d, n)[e] != Unset()
    ensures h < n && d.halfEdges[h].edge == e
  {
    if n > 0 {
      if d.halfEdges[n - 1].edge == e {
        h := n - 1;
      } else {
        h := EndsDescribedUpTo(d, e, n - 1);
      }
    }
  }

  /** `std::count(flags, x)`. */
  function Count(s: seq<nat>, x: nat): (c: nat)
    ensures c <= |s|
  {
    CountBelow(s, |s|, x)
  }

  function CountBelow(s: seq<nat>, k: nat, x: nat): (c: nat)
    requires k <= |s|
    ensures c == |set i | 0 <= i < k && s[i] == x|
    ensures c <= k
  {
    var st := set i | 0 <= i < k && s[i] == x;
    assert st <= Indices(k);
    IndicesCard(k);
    SubsetCard(st, Indices(k));
    |st|
  }

  lemma {:induction false} IndicesCard(k: nat)
    ensures |Indices(k)| == k
  {
    if k > 0 {
      IndicesCard(k - 1);
      assert Indices(k) == Indices(k - 1) + {k - 1};
    }
  }

  lemma SubsetCard(a: set<nat>, b: set<nat>)
    requires a <= b
    ensures |a| <= |b|
  {
    assert b == a + (b - a);
  }

  /** Counting the ones and the zeros of a flag array covers all of it. */
  lemma CountFlags(s: seq<nat>)
    requires forall i | 0 <= i < |s| :: s[i] <= 1
    ensures Count(s, 1) + Count(s, 0) == |s|
  {
    var ones := set i | 0 <= i < |s| && s[i] == 1;
    var zeros := set i | 0 <= i < |s| && s[i] == 0;
    assert ones * zeros == {};
    assert ones + zeros == Indices(|s|);
    IndicesCard(|s|);
  }

  // ------------------------------------------------------ incidence lists

  /** The tail filter distributes over concatenation ... */
  lemma {:induction false} ValidTailsAppend(d: MeshData, a: seq<nat>, b: seq<nat>)
    requires Traversable(d)
    requires forall i | 0 <= i < |a| :: a[i] < |d.halfEdges|
    requires forall i | 0 <= i < |b| :: b[i] < |d.halfEdges|
    ensures ValidTails(d, a + b) == ValidTails(d, a) + ValidTails(d, b)
  {
    if a == [] {
      assert a + b == b;
    } else {
      var rest := a[1..];
      assert (a + b)[0] == a[0] && (a + b)[1..] == rest + b;
      ValidTailsAppend(d, rest, b);
      ValidTailsCons(d, a + b);
      ValidTailsCons(d, a);
    }
  }

  /** One step of the tail filter. */
  lemma ValidTailsCons(d: MeshData, hs: seq<nat>)
    requires Traversable(d) && hs != []
    requires forall i | 0 <= i < |hs| :: hs[i] < |d.halfEdges|
    ensures ValidTails(d, hs) == ValidTails(d, [hs[0]]) + ValidTails(d, hs[1..])
  {
    assert [hs[0]][1..] == [];
  }

  /** ... and so does the edge filter. */
  lemma {:induction false} ValidEdgesAppend(d: MeshData, a: seq<nat>, b: seq<nat>)
    requires Traversable(d)
    requires forall i | 0 <= i < |a| :: a[i] < |d.halfEdges|
    requires forall i | 0 <= i < |b| :: b[i] < |d.halfEdges|
    ensures ValidEdges(d, a + b) == ValidEdges(d, a) + ValidEdges(d, b)
  {
    if a == [] {
      assert a + b == b;
    } else {
      var rest := a[1..];
      assert (a + b)[0] == a[0] && (a + b)[1..] == rest + b;
      ValidEdgesAppend(d, rest, b);
      ValidEdgesCons(d, a + b);
      ValidEdgesCons(d, a);
    }
  }

  /** One step of the edge filter. */
  lemma ValidEdgesCons(d: MeshData, hs: seq<nat>)
    requires Traversable(d) && hs != []
    requires forall i | 0 <= i < |hs| :: hs[i] < |d.halfEdges|
    ensures ValidEdges(d, hs) == ValidEdges(d, [hs[0]]) + ValidEdges(d, hs[1..])
  {
    assert [hs[0]][1..] == [];
  }

  /** The lists of `K`, one after another. */
  function Flatten(K: seq<seq<nat>>): seq<nat>
  {
    if K == [] then [] else Flatten(K[..|K| - 1]) + K[|K| - 1]
  }

  /** The per-key lists after the first `k` lists of `K` are scattered:
      list `f` contributes `f` once to the list of each of its keys, per
      occurrence of the key. */
  function ScatterAll(n: nat, K: seq<seq<nat>>, k: nat): (L: seq<seq<nat>>)
    requires k <= |K|
    ensures |L| == n
  {
    if k == 0 then seq(n, _ => []) else Scatter(ScatterAll(n, K, k - 1), K[k - 1], k - 1)
  }

  /** The list of key `v` has one entry per occurrence of `v` among the
      scattered lists. */
  lemma {:induction false} ScatterAllLength(n: nat, K: seq<seq<nat>>, k: nat, v: nat)
    requires k <= |K| && v < n
    ensures |ScatterAll(n, K, k)[v]| == multiset(Flatten(K[..k]))[v]
  {
    if k > 0 {
      ScatterAllLength(n, K, k - 1, v);
      ScatterAppends(ScatterAll(n, K, k - 1), K[k - 1], k - 1);
      assert K[..k][..k - 1] == K[..k - 1];
      assert Flatten(K[..k]) == Flatten(K[..k - 1]) + K[k - 1];
    }
  }

  /** Index `f` is listed for key `v` exactly when list `f` is among the
      scattered ones and holds `v`. */
  lemma {:induction false} ScatterAllMember(n: nat, K: seq<seq<nat>>, k: nat, v: nat, f: nat)
    requires k <= |K| && v < n
    ensures f in ScatterAll(n, K, k)[v] <==> f < k && v in K[f]
  {
    if k > 0 {
      ScatterAllMember(n, K, k - 1, v, f);
      var m: multiset<nat> := multiset(K[k - 1]);
      var prev := ScatterAll(n, K, k - 1);
      ScatterAppends(prev, K[k - 1], k - 1);
      assert ScatterAll(n, K, k)[v] == prev[v] + Repeat(k - 1, m[v]);
      RepeatHas(k - 1, m[v], f);
      assert (f in ScatterAll(n, K, k)[v]) == (f in prev[v] || f in Repeat(k - 1, m[v]));
      assert (m[v] > 0) == (v in K[k - 1]);
    }
  }

  /** The face-vertex lists: each face's walk tails. */
  function FaceVertexLists(d: MeshData): (L: seq<seq<nat>>)
    requires Traversable(d)
    ensures |L| == |d.faces|
  {
    seq(|d.faces|, f requires 0 <= f < |d.faces| => ValidTails(d, FaceLoop(d, f)))
  }

  /** The face-edge lists: each face's walk edges. */
  function FaceEdgeLists(d: MeshData): (L: seq<seq<nat>>)
    requires Traversable(d)
    ensures |L| == |d.faces|
  {
    seq(|d.faces|, f requires 0 <= f < |d.faces| => ValidEdges(d, FaceLoop(d, f)))
  }

  /** The one-ring lists, with the backward walk started from the outgoing
      half-edge. */
  function OneRingLists(d: MeshData): (L: seq<seq<nat>>)
    requires Traversable(d)
    ensures |L| == |d.vertices|
  {
    seq(|d.vertices|, v requires 0 <= v < |d.vertices| => OneRingWalkFromStart(d, v))
  }

  /** The slot widths of the face tables: the face valences. */
  function FaceValences(d: MeshData): (c: seq<nat>)
    ensures |c| == |d.faces| && forall f | 0 <= f < |d.faces| :: c[f] == d.faces[f].valence
  {
    seq(|d.faces|, f requires 0 <= f < |d.faces| => d.faces[f].valence)
  }

  /** The faces listed for each vertex: each face once per visit of its
      walk to the vertex. */
  function VertexFaceLists(d: MeshData): (L: seq<seq<nat>>)
    requires Traversable(d)
    ensures |L| == |d.vertices|
  {
    ScatterAll(|d.vertices|, FaceVertexLists(d), |d.faces|)
  }

  /** The faces listed for each edge: each face once per crossing of its
      walk over the edge. */
  function EdgeFaceLists(d: MeshData): (L: seq<seq<nat>>)
    requires Traversable(d)
    ensures |L| == |d.edges|
  {
    ScatterAll(|d.edges|, FaceEdgeLists(d), |d.faces|)
  }

  /** The vertex-face counts of the counting pass: visits of all face
      walks to each vertex. */
  function VertexFaceCounts(d: MeshData): (c: seq<nat>)
    requires Traversable(d)
    ensures |c| == |d.vertices|
  {
    seq(|d.vertices|, v requires 0 <= v => multiset(Flatten(FaceVertexLists(d)))[v])
  }

  /** The edge-face counts of the half-edge pass. */
  function EdgeFaceCounts(d: MeshData): (c: seq<nat>)
    ensures |c| == |d.edges|
  {
    seq(|d.edges|, e requires 0 <= e => |FacedOn(d, e, |d.halfEdges|)|)
  }
}
