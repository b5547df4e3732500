// The walks the topology cache makes over a mesh snapshot: around a face
// by `next`, and around a vertex by `twin`/`next` forward and `prev`/`twin`
// backward. Each walk carries a visited set, as the cache's `visited`
// buffers do, which is also what makes it terminate on any input.

module CacheWalks {
  import opened MeshTypes
  import opened HalfEdgeTopology

  /** The indices `lo <= i < hi`. */
  function Range(lo: nat, hi: nat): (s: set<nat>)
    ensures forall i: nat :: i in s <==> lo <= i < hi
    decreases hi - lo
  {
    if hi <= lo then {} else Range(lo, hi - 1) + {hi - 1}
  }

  /** The half-edge indices of an array of `n` half-edges. */
  function Indices(n: nat): (s: set<nat>)
    ensures forall i: nat :: i in s <==> i < n
  {
    Range(0, n)
  }

  /** What the cache and render builds read without a bounds check:
      successors, predecessors, twins, the successor of a twin, outgoing
      pointers and face starts are the sentinel or name a half-edge. */
  ghost predicate Traversable(d: MeshData)
  {
    d.SizesFit()
    && (forall h {:trigger d.halfEdges[h].next} | 0 <= h < |d.halfEdges| ::
          d.halfEdges[h].next == INVALID_INDEX || d.halfEdges[h].next < |d.halfEdges|)
    && (forall h {:trigger d.halfEdges[h].prev} | 0 <= h < |d.halfEdges| ::
          d.halfEdges[h].prev == INVALID_INDEX || d.halfEdges[h].prev < |d.halfEdges|)
    && (forall h {:trigger d.halfEdges[h].twin} | 0 <= h < |d.halfEdges| ::
          d.halfEdges[h].twin == INVALID_INDEX || d.halfEdges[h].twin < |d.halfEdges|)
    && (forall h, t {:trigger d.halfEdges[h].twin, d.halfEdges[t].next}
          | 0 <= h < |d.halfEdges| && 0 <= t < |d.halfEdges| && d.halfEdges[h].twin == t ::
          d.halfEdges[t].next != INVALID_INDEX)
    && (forall v | 0 <= v < |d.vertices| ::
          d.vertices[v].outgoing == INVALID_INDEX || d.vertices[v].outgoing < |d.halfEdges|)
    && (forall f | 0 <= f < |d.faces| ::
          d.faces[f].edge == INVALID_INDEX || d.faces[f].edge < |d.halfEdges|)
  }

  /** Every mesh the editing operations build can be traversed. */
  lemma WellFormedTraversable(d: MeshData)
    requires d.WellFormed()
    ensures Traversable(d)
  {
    LinkedTraversable(d);
  }

  /** Links in range are all the traversal needs. */
  lemma LinkedTraversable(d: MeshData)
    requires d.LinksInRange()
    ensures Traversable(d)
  {
    forall h | 0 <= h < |d.halfEdges|
      ensures d.halfEdges[h].twin != INVALID_INDEX ==> d.halfEdges[d.halfEdges[h].twin].next < |d.halfEdges|
    {
      var t := d.halfEdges[h].twin;
      if t != INVALID_INDEX {
        assert d.LinksOk(d.halfEdges[t]);
      }
    }
  }

  /** The tail of a half-edge of a traversable mesh. */
  function Tail(d: MeshData, h: nat): nat
    requires Traversable(d) && h < |d.halfEdges|
  {
    d.FromVertex(h)
  }

  // ---------------------------------------------------------------- faces

  /** The half-edges a face walk visits from `cur` on: stop at a half-edge
      already seen, else take it and follow `next` while that is a valid
      half-edge other than `start`. */
  function FaceLoopFrom(d: MeshData, start: nat, cur: nat, seen: set<nat>): (hs: seq<nat>)
    requires Traversable(d) && cur < |d.halfEdges| && seen <= Indices(|d.halfEdges|)
    ensures forall i | 0 <= i < |hs| :: hs[i] < |d.halfEdges| && hs[i] !in seen
    ensures cur !in seen ==> |hs| >= 1 && hs[0] == cur
    ensures cur in seen ==> hs == []
    decreases Indices(|d.halfEdges|) - seen
  {
    if cur in seen then []
    else
      var nx := d.halfEdges[cur].next;
      [cur] + (if nx != start && IsValidIndex(nx, |d.halfEdges|) then FaceLoopFrom(d, start, nx, seen + {cur}) else [])
  }

  /** The half-edges of face `f` in walk order, as both face passes of the
      build visit them; nothing for a face without a half-edge. */
  function FaceLoop(d: MeshData, f: nat): (hs: seq<nat>)
    requires Traversable(d) && f < |d.faces|
    ensures forall i | 0 <= i < |hs| :: hs[i] < |d.halfEdges|
    ensures d.faces[f].edge == INVALID_INDEX <==> hs == []
  {
    var s := d.faces[f].edge;
    if IsValidIndex(s, |d.halfEdges|) then FaceLoopFrom(d, s, s, {}) else []
  }

  /** The half-edge indices `[b + i, b + n)`. */
  function Block(b: nat, i: nat, n: nat): (s: seq<nat>)
    requires i <= n
    ensures |s| == n - i && forall j | 0 <= j < |s| :: s[j] == b + i + j
    decreases n - i
  {
    if i == n then [] else [b + i] + Block(b, i + 1, n)
  }

  /** A walk round a block of `n` half-edges starting at `b`, each of
      whose successor is the next one round the block, visits the block in
      order and closes on its start after exactly `n` steps. */
  lemma {:induction false} FaceLoopFromBlock(d: MeshData, b: nat, n: nat, i: nat)
    requires Traversable(d) && i < n && b + n <= |d.halfEdges|
    requires forall h | b <= h < b + n :: d.halfEdges[h].next == b + Succ(h - b, n)
    ensures FaceLoopFrom(d, b, b + i, Range(b, b + i)) == Block(b, i, n)
    decreases n - i
  {
    BlockWalkStep(d, b, n, i);
    if i + 1 < n {
      FaceLoopFromBlock(d, b, n, i + 1);
    }
  }

  /** One step of the walk round such a block. */
  lemma BlockWalkStep(d: MeshData, b: nat, n: nat, i: nat)
    requires Traversable(d) && i < n && b + n <= |d.halfEdges|
    requires d.halfEdges[b + i].next == b + Succ(i, n)
    ensures FaceLoopFrom(d, b, b + i, Range(b, b + i)) ==
              [b + i] + if i + 1 < n then FaceLoopFrom(d, b, b + (i + 1), Range(b, b + (i + 1))) else []
  {
    var seen := Range(b, b + i);
    assert b + i !in seen;
    if i + 1 < n {
      assert seen + {b + i} == Range(b, b + (i + 1));
    }
  }

  /** In a well-formed mesh the walk round a face is its block of
      half-edges, in order. */
  lemma FaceLoopIsBlock(d: MeshData, f: nat)
    requires d.LinksInRange() && f < |d.faces| && d.FaceLaidOut(f)
    ensures Traversable(d) && d.faces[f].edge + d.faces[f].valence <= |d.halfEdges|
    ensures FaceLoop(d, f) == Block(d.faces[f].edge, 0, d.faces[f].valence)
  {
    LinkedTraversable(d);
    var b, n := d.faces[f].edge, d.faces[f].valence;
    FaceLoopFromBlock(d, b, n, 0);
    assert Range(b, b + 0) == {};
  }

  /** The tails of `hs` that are vertices, in order. */
  function ValidTails(d: MeshData, hs: seq<nat>): (vs: seq<nat>)
    requires Traversable(d) && forall i | 0 <= i < |hs| :: hs[i] < |d.halfEdges|
    ensures |vs| <= |hs| && forall i | 0 <= i < |vs| :: vs[i] < |d.vertices|
  {
    if hs == [] then []
    else
      var v := Tail(d, hs[0]);
      (if IsValidIndex(v, |d.vertices|) then [v] else []) + ValidTails(d, hs[1..])
  }

  /** The edges of `hs` that are edges of the mesh, in order. */
  function ValidEdges(d: MeshData, hs: seq<nat>): (es: seq<nat>)
    requires Traversable(d) && forall i | 0 <= i < |hs| :: hs[i] < |d.halfEdges|
    ensures |es| <= |hs| && forall i | 0 <= i < |es| :: es[i] < |d.edges|
  {
    if hs == [] then []
    else
      var e := d.halfEdges[hs[0]].edge;
      (if IsValidIndex(e, |d.edges|) then [e] else []) + ValidEdges(d, hs[1..])
  }

  /** When every half-edge of `hs` has a vertex for its tail, the tail
      filter keeps one entry per half-edge, in order ... */
  lemma {:induction false} ValidTailsAll(d: MeshData, hs: seq<nat>)
    requires Traversable(d)
    requires forall i | 0 <= i < |hs| :: hs[i] < |d.halfEdges|
    requires forall i | 0 <= i < |hs| :: Tail(d, hs[i]) < |d.vertices|
    ensures |ValidTails(d, hs)| == |hs| && forall i | 0 <= i < |hs| :: ValidTails(d, hs)[i] == Tail(d, hs[i])
  {
    if hs != [] {
      var rest := hs[1..];
      ValidTailsAll(d, rest);
      ValidTailsHead(d, hs);
      forall i | 1 <= i < |hs|
        ensures ValidTails(d, hs)[i] == Tail(d, hs[i])
      {
        assert rest[i - 1] == hs[i];
      }
    }
  }

  /** The first step of the filter, when the first half-edge passes it. */
  lemma ValidTailsHead(d: MeshData, hs: seq<nat>)
    requires Traversable(d) && hs != []
    requires forall i | 0 <= i < |hs| :: hs[i] < |d.halfEdges|
    requires Tail(d, hs[0]) < |d.vertices|
    ensures ValidTails(d, hs) == [Tail(d, hs[0])] + ValidTails(d, hs[1..])
  {
  }

  /** ... and when every one has an edge, so does the edge filter. */
  lemma {:induction false} ValidEdgesAll(d: MeshData, hs: seq<nat>)
    requires Traversable(d)
    requires forall i | 0 <= i < |hs| :: hs[i] < |d.halfEdges|
    requires forall i | 0 <= i < |hs| :: d.halfEdges[hs[i]].edge < |d.edges|
    ensures |ValidEdges(d, hs)| == |hs| && forall i | 0 <= i < |hs| :: ValidEdges(d, hs)[i] == d.halfEdges[hs[i]].edge
  {
    if hs != [] {
      var rest := hs[1..];
      ValidEdgesAll(d, rest);
      ValidEdgesHead(d, hs);
      forall i | 1 <= i < |hs|
        ensures ValidEdges(d, hs)[i] == d.halfEdges[hs[i]].edge
      {
        assert rest[i - 1] == hs[i];
      }
    }
  }

  /** The first step of the filter, when the first half-edge passes it. */
  lemma ValidEdgesHead(d: MeshData, hs: seq<nat>)
    requires Traversable(d) && hs != []
    requires forall i | 0 <= i < |hs| :: hs[i] < |d.halfEdges|
    requires d.halfEdges[hs[0]].edge < |d.edges|
    ensures ValidEdges(d, hs) == [d.halfEdges[hs[0]].edge] + ValidEdges(d, hs[1..])
  {
  }

  /** In a mesh whose links are in range every half-edge has a vertex for
      its tail and an edge. */
  lemma LinkedEndpoints(d: MeshData, hs: seq<nat>)
    requires d.LinksInRange() && Traversable(d)
    requires forall i | 0 <= i < |hs| :: hs[i] < |d.halfEdges|
    ensures forall i | 0 <= i < |hs| :: Tail(d, hs[i]) < |d.vertices| && d.halfEdges[hs[i]].edge < |d.edges|
  {
    forall i | 0 <= i < |hs|
      ensures Tail(d, hs[i]) < |d.vertices| && d.halfEdges[hs[i]].edge < |d.edges|
    {
      var h := hs[i];
      assert d.LinksOk(d.halfEdges[h]);
      assert d.LinksOk(d.halfEdges[d.halfEdges[h].prev]);
    }
  }

  /** The filters over a block of half-edges whose links are in range. */
  lemma BlockFilters(d: MeshData, b: nat, n: nat)
    requires d.LinksInRange() && Traversable(d) && b + n <= |d.halfEdges|
    ensures |ValidTails(d, Block(b, 0, n))| == n && |ValidEdges(d, Block(b, 0, n))| == n
    ensures forall i | 0 <= i < n :: ValidTails(d, Block(b, 0, n))[i] == Tail(d, b + i)
    ensures forall i | 0 <= i < n :: ValidEdges(d, Block(b, 0, n))[i] == d.halfEdges[b + i].edge
  {
    var hs := Block(b, 0, n);
    LinkedEndpoints(d, hs);
    ValidTailsAll(d, hs);
    ValidEdgesAll(d, hs);
    BlockTails(d, b, n);
    BlockEdges(d, b, n);
  }

  lemma BlockTails(d: MeshData, b: nat, n: nat)
    requires Traversable(d) && b + n <= |d.halfEdges|
    requires |ValidTails(d, Block(b, 0, n))| == n
    requires forall i | 0 <= i < n :: ValidTails(d, Block(b, 0, n))[i] == Tail(d, Block(b, 0, n)[i])
    ensures forall i | 0 <= i < n :: ValidTails(d, Block(b, 0, n))[i] == Tail(d, b + i)
  {
    var hs := Block(b, 0, n);
    forall i | 0 <= i < n
      ensures ValidTails(d, hs)[i] == Tail(d, b + i)
    {
      assert hs[i] == b + i;
    }
  }

  lemma BlockEdges(d: MeshData, b: nat, n: nat)
    requires Traversable(d) && b + n <= |d.halfEdges|
    requires |ValidEdges(d, Block(b, 0, n))| == n
    requires forall i | 0 <= i < n :: ValidEdges(d, Block(b, 0, n))[i] == d.halfEdges[Block(b, 0, n)[i]].edge
    ensures forall i | 0 <= i < n :: ValidEdges(d, Block(b, 0, n))[i] == d.halfEdges[b + i].edge
  {
    var hs := Block(b, 0, n);
    forall i | 0 <= i < n
      ensures ValidEdges(d, hs)[i] == d.halfEdges[b + i].edge
    {
      assert hs[i] == b + i;
    }
  }

  /** When faces are laid out as the editing operations lay them out (in
      particular in a well-formed mesh), a face's vertex list is its polygon
      in the order it was given: the tails of its block of half-edges. */
  lemma FaceVerticesInOrder(d: MeshData, f: nat)
    requires d.LinksInRange() && d.FacesLaidOut() && f < |d.faces|
    ensures Traversable(d) && d.faces[f].edge + d.faces[f].valence <= |d.halfEdges|
    ensures |ValidTails(d, FaceLoop(d, f))| == d.faces[f].valence
    ensures forall i | 0 <= i < d.faces[f].valence ::
              ValidTails(d, FaceLoop(d, f))[i] == Tail(d, d.faces[f].edge + i)
  {
    assert d.FaceLaidOut(f);
    FaceLoopIsBlock(d, f);
    LoopVertices(d, FaceLoop(d, f), d.faces[f].edge, d.faces[f].valence);
  }

  lemma LoopVertices(d: MeshData, hs: seq<nat>, b: nat, n: nat)
    requires d.LinksInRange() && Traversable(d) && b + n <= |d.halfEdges| && hs == Block(b, 0, n)
    ensures |ValidTails(d, hs)| == n
    ensures forall i | 0 <= i < n :: ValidTails(d, hs)[i] == Tail(d, b + i)
  {
    BlockFilters(d, b, n);
  }

  /** Likewise a face's edge list is the edges of its sides, in order. */
  lemma FaceEdgesInOrder(d: MeshData, f: nat)
    requires d.LinksInRange() && d.FacesLaidOut() && f < |d.faces|
    ensures Traversable(d) && d.faces[f].edge + d.faces[f].valence <= |d.halfEdges|
    ensures |ValidEdges(d, FaceLoop(d, f))| == d.faces[f].valence
    ensures forall i | 0 <= i < d.faces[f].valence ::
              ValidEdges(d, FaceLoop(d, f))[i] == d.halfEdges[d.faces[f].edge + i].edge
  {
    assert d.FaceLaidOut(f);
    FaceLoopIsBlock(d, f);
    LoopEdges(d, FaceLoop(d, f), d.faces[f].edge, d.faces[f].valence);
  }

  lemma LoopEdges(d: MeshData, hs: seq<nat>, b: nat, n: nat)
    requires d.LinksInRange() && Traversable(d) && b + n <= |d.halfEdges| && hs == Block(b, 0, n)
    ensures |ValidEdges(d, hs)| == n
    ensures forall i | 0 <= i < n :: ValidEdges(d, hs)[i] == d.halfEdges[b + i].edge
  {
    BlockFilters(d, b, n);
  }

  // ------------------------------------------------------------- vertices

  /** What the forward walk round a vertex leaves behind: the neighbours it
      met, the half-edge it stopped on, whether it stopped at a half-edge
      without a twin, and the half-edges it visited. */
  datatype Forward = Forward(nbrs: seq<nat>, last: nat, boundary: bool, seen: set<nat>)

  /** The forward walk from `cur`: stop at a visited half-edge; otherwise
      record its head, then stop if it has no twin, else move to the
      successor of its twin until that is `start` again. */
  function ForwardFrom(d: MeshData, start: nat, cur: nat, seen: set<nat>): (w: Forward)
    requires Traversable(d) && cur < |d.halfEdges| && seen <= Indices(|d.halfEdges|)
    ensures w.last < |d.halfEdges| && seen <= w.seen <= Indices(|d.halfEdges|)
    ensures w.boundary ==> d.halfEdges[w.last].twin == INVALID_INDEX && w.last in w.seen
    ensures |w.nbrs| == |w.seen - seen|
    decreases Indices(|d.halfEdges|) - seen
  {
    if cur in seen then Forward([], cur, false, seen)
    else
      var seen' := seen + {cur};
      var nb := d.halfEdges[cur].to;
      var t := d.halfEdges[cur].twin;
      if t == INVALID_INDEX then
        assert seen' - seen == {cur};
        Forward([nb], cur, true, seen')
      else
        var nx := d.halfEdges[t].next;
        if nx == start then
          assert seen' - seen == {cur};
          Forward([nb], nx, false, seen')
        else
          var w := ForwardFrom(d, start, nx, seen');
          assert w.seen - seen == (w.seen - seen') + {cur};
          Forward([nb] + w.nbrs, w.last, w.boundary, w.seen)
  }

  /** The backward walk from `cur`: through a valid predecessor to its
      twin, recording each twin's head; a predecessor without a twin
      contributes its tail and ends the walk, as does a twin already seen. */
  function BackwardFrom(d: MeshData, cur: nat, seen: set<nat>): (nbrs: seq<nat>)
    requires Traversable(d) && cur < |d.halfEdges| && seen <= Indices(|d.halfEdges|)
    decreases Indices(|d.halfEdges|) - seen
  {
    var p := d.halfEdges[cur].prev;
    if !IsValidIndex(p, |d.halfEdges|) then []
    else
      var pt := d.halfEdges[p].twin;
      if pt == INVALID_INDEX then [Tail(d, p)]
      else if pt in seen then []
      else [d.halfEdges[pt].to] + BackwardFrom(d, pt, seen + {pt})
  }

  /** The neighbour list the cache writes for vertex `v`: the forward walk
      from its outgoing half-edge, then, when that stopped at a border, the
      backward walk from where it stopped, sharing its visited set. */
  function OneRingWalk(d: MeshData, v: nat): seq<nat>
    requires Traversable(d) && v < |d.vertices|
  {
    var o := d.vertices[v].outgoing;
    if o == INVALID_INDEX then []
    else
      var w := ForwardFrom(d, o, o, {});
      w.nbrs + (if w.boundary then BackwardFrom(d, w.last, w.seen) else [])
  }

  /** The intended walk: the backward part starts from the outgoing
      half-edge, so the spokes before it in the fan are reached too. */
  function OneRingWalkFromStart(d: MeshData, v: nat): seq<nat>
    requires Traversable(d) && v < |d.vertices|
  {
    var o := d.vertices[v].outgoing;
    if o == INVALID_INDEX then []
    else
      var w := ForwardFrom(d, o, o, {});
      w.nbrs + (if w.boundary then BackwardFrom(d, o, w.seen) else [])
  }

  /** `u` and `v` are joined by a half-edge in one direction or the other. */
  ghost predicate Adjacent(d: MeshData, v: nat, u: nat)
    requires d.LinksInRange()
  {
    exists h | 0 <= h < |d.halfEdges| ::
      (d.FromVertex(h) == v && d.halfEdges[h].to == u) || (d.FromVertex(h) == u && d.halfEdges[h].to == v)
  }

  /** The link invariants the walks round a vertex rely on. */
  ghost predicate FanLinked(d: MeshData)
  {
    d.LinksInRange() && d.FacesLaidOut() && d.HalfEdgesInTheirFaces() && d.TwinsPaired() && Traversable(d)
  }

  /** A forward step from `h`, to the successor of its twin, leaves from
      the tail of `h` again. */
  ghost predicate SpokeStep(d: MeshData, h: nat)
    requires d.LinksInRange() && h < |d.halfEdges|
  {
    d.halfEdges[h].twin != INVALID_INDEX ==>
      d.halfEdges[d.halfEdges[h].twin].next < |d.halfEdges|
      && d.FromVertex(d.halfEdges[d.halfEdges[h].twin].next) == d.FromVertex(h)
  }

  ghost predicate SpokeSteps(d: MeshData)
    requires d.LinksInRange()
  {
    forall h | 0 <= h < |d.halfEdges| :: SpokeStep(d, h)
  }

  lemma FanSpokeSteps(d: MeshData)
    requires FanLinked(d)
    ensures SpokeSteps(d)
  {
    forall h | 0 <= h < |d.halfEdges|
      ensures SpokeStep(d, h)
    {
      if d.halfEdges[h].twin != INVALID_INDEX {
        StepLeavesVertex(d, h);
      }
    }
  }

  /** Every entry of `s` is a neighbour of `v`. */
  ghost predicate AllAdjacent(d: MeshData, v: nat, s: seq<nat>)
    requires d.LinksInRange()
  {
    forall i | 0 <= i < |s| :: Adjacent(d, v, s[i])
  }

  /** In a well-formed mesh the forward walk from a half-edge leaving `v`
      only meets half-edges leaving `v`, so it records neighbours of `v` ... */
  lemma {:induction false} ForwardNeighbours(d: MeshData, v: nat, start: nat, cur: nat, seen: set<nat>)
    requires d.LinksInRange() && Traversable(d) && SpokeSteps(d)
    requires cur < |d.halfEdges| && seen <= Indices(|d.halfEdges|) && d.FromVertex(cur) == v
    ensures AllAdjacent(d, v, ForwardFrom(d, start, cur, seen).nbrs)
    decreases Indices(|d.halfEdges|) - seen
  {
    var nbrs := ForwardFrom(d, start, cur, seen).nbrs;
    if cur in seen {
      assert nbrs == [];
    } else {
      var nb, t := d.halfEdges[cur].to, d.halfEdges[cur].twin;
      assert Adjacent(d, v, nb);
      if t == INVALID_INDEX || d.halfEdges[t].next == start {
        assert nbrs == [nb] + [];
        AdjacentCons(d, v, nb, []);
      } else {
        var nx := d.halfEdges[t].next;
        assert SpokeStep(d, cur);
        ForwardNeighbours(d, v, start, nx, seen + {cur});
        var rest := ForwardFrom(d, start, nx, seen + {cur}).nbrs;
        assert nbrs == [nb] + rest;
        AdjacentCons(d, v, nb, rest);
      }
    }
  }

  lemma AdjacentCons(d: MeshData, v: nat, u: nat, s: seq<nat>)
    requires d.LinksInRange() && Adjacent(d, v, u) && AllAdjacent(d, v, s)
    ensures AllAdjacent(d, v, [u] + s)
  {
    forall i | 0 <= i < |[u] + s|
      ensures Adjacent(d, v, ([u] + s)[i])
    {
      if i > 0 {
        assert ([u] + s)[i] == s[i - 1];
      }
    }
  }

  /** ... and it stops at a half-edge leaving `v`. */
  lemma {:induction false} ForwardStaysAtVertex(d: MeshData, v: nat, start: nat, cur: nat, seen: set<nat>)
    requires d.LinksInRange() && Traversable(d) && SpokeSteps(d)
    requires cur < |d.halfEdges| && seen <= Indices(|d.halfEdges|) && d.FromVertex(cur) == v
    ensures d.FromVertex(ForwardFrom(d, start, cur, seen).last) == v
    decreases Indices(|d.halfEdges|) - seen
  {
    if cur !in seen {
      var t := d.halfEdges[cur].twin;
      if t != INVALID_INDEX {
        var nx := d.halfEdges[t].next;
        assert SpokeStep(d, cur);
        if nx != start {
          ForwardStaysAtVertex(d, v, start, nx, seen + {cur});
        }
      }
    }
  }

  /** One forward step `next(twin(h))` leaves from the tail of `h`. */
  lemma StepLeavesVertex(d: MeshData, h: nat)
    requires FanLinked(d) && h < |d.halfEdges| && d.halfEdges[h].twin != INVALID_INDEX
    ensures d.halfEdges[d.halfEdges[h].twin].next < |d.halfEdges|
    ensures d.FromVertex(d.halfEdges[d.halfEdges[h].twin].next) == d.FromVertex(h)
  {
    var t := d.halfEdges[h].twin;
    assert d.LinksOk(d.halfEdges[t]);
    NextLeavesHead(d, t);
  }

  /** The successor of a half-edge leaves from its head. */
  lemma NextLeavesHead(d: MeshData, h: nat)
    requires d.LinksInRange() && d.FacesLaidOut() && d.HalfEdgesInTheirFaces() && h < |d.halfEdges|
    ensures d.halfEdges[h].next < |d.halfEdges| && d.FromVertex(d.halfEdges[h].next) == d.halfEdges[h].to
  {
    var f := d.halfEdges[h].face;
    assert d.LinksOk(d.halfEdges[h]);
    assert d.FaceLaidOut(f);
    var b, n := d.faces[f].edge, d.faces[f].valence;
    var nx := d.halfEdges[h].next;
    assert nx == b + Succ(h - b, n);
    assert d.halfEdges[nx].prev == b + Pred(nx - b, n) == h;
  }

  /** One backward step `twin(prev(h))` leaves from the tail of `h`. */
  lemma BackStepLeavesVertex(d: MeshData, h: nat)
    requires d.LinksInRange() && d.TwinsPaired() && h < |d.halfEdges|
    ensures d.halfEdges[h].prev < |d.halfEdges|
    ensures d.halfEdges[d.halfEdges[h].prev].to == d.FromVertex(h)
    ensures d.halfEdges[d.halfEdges[h].prev].twin != INVALID_INDEX ==>
              d.FromVertex(d.halfEdges[d.halfEdges[h].prev].twin) == d.FromVertex(h)
  {
    var p := d.halfEdges[h].prev;
    assert d.LinksOk(d.halfEdges[h]);
  }

  /** Likewise the backward walk only records neighbours of `v`. */
  lemma {:induction false} BackwardNeighbours(d: MeshData, v: nat, cur: nat, seen: set<nat>)
    requires d.LinksInRange() && d.TwinsPaired() && Traversable(d)
    requires cur < |d.halfEdges| && seen <= Indices(|d.halfEdges|) && d.FromVertex(cur) == v
    ensures AllAdjacent(d, v, BackwardFrom(d, cur, seen))
    decreases Indices(|d.halfEdges|) - seen
  {
    var p := d.halfEdges[cur].prev;
    BackStepLeavesVertex(d, cur);
    if IsValidIndex(p, |d.halfEdges|) {
      var pt := d.halfEdges[p].twin;
      if pt == INVALID_INDEX {
        assert d.halfEdges[p].to == v;
        assert Adjacent(d, v, Tail(d, p));
      } else if pt !in seen {
        assert Adjacent(d, v, d.halfEdges[pt].to);
        BackwardNeighbours(d, v, pt, seen + {pt});
        assert BackwardFrom(d, cur, seen) == [d.halfEdges[pt].to] + BackwardFrom(d, pt, seen + {pt});
      }
    }
  }

  /** In a well-formed mesh (the link invariants below suffice) every
      entry of a one-ring list is a neighbour of the vertex, in the walk as
      written ... */
  lemma OneRingNeighbours(d: MeshData, v: nat)
    requires d.LinksInRange() && d.FacesLaidOut() && d.HalfEdgesInTheirFaces() && d.TwinsPaired()
    requires d.OutgoingSound() && v < |d.vertices|
    ensures Traversable(d)
    ensures forall i | 0 <= i < |OneRingWalk(d, v)| :: Adjacent(d, v, OneRingWalk(d, v)[i])
  {
    LinkedTraversable(d);
    FanSpokeSteps(d);
    var o := d.vertices[v].outgoing;
    if o != INVALID_INDEX {
      var w := ForwardFrom(d, o, o, {});
      ForwardNeighbours(d, v, o, o, {});
      if w.boundary {
        ForwardStaysAtVertex(d, v, o, o, {});
        BackwardNeighbours(d, v, w.last, w.seen);
        AdjacentConcat(d, v, w.nbrs, BackwardFrom(d, w.last, w.seen));
      }
    }
  }

  /** ... and in the intended one. */
  lemma OneRingFromStartNeighbours(d: MeshData, v: nat)
    requires d.LinksInRange() && d.FacesLaidOut() && d.HalfEdgesInTheirFaces() && d.TwinsPaired()
    requires d.OutgoingSound() && v < |d.vertices|
    ensures Traversable(d)
    ensures forall i | 0 <= i < |OneRingWalkFromStart(d, v)| :: Adjacent(d, v, OneRingWalkFromStart(d, v)[i])
  {
    LinkedTraversable(d);
    FanSpokeSteps(d);
    var o := d.vertices[v].outgoing;
    if o != INVALID_INDEX {
      var w := ForwardFrom(d, o, o, {});
      ForwardNeighbours(d, v, o, o, {});
      if w.boundary {
        BackwardNeighbours(d, v, o, w.seen);
        AdjacentConcat(d, v, w.nbrs, BackwardFrom(d, o, w.seen));
      }
    }
  }

  lemma AdjacentConcat(d: MeshData, v: nat, a: seq<nat>, b: seq<nat>)
    requires d.LinksInRange() && AllAdjacent(d, v, a) && AllAdjacent(d, v, b)
    ensures AllAdjacent(d, v, a + b)
  {
    forall i | 0 <= i < |a + b|
      ensures Adjacent(d, v, (a + b)[i])
    {
      if i >= |a| {
        assert (a + b)[i] == b[i - |a|];
      }
    }
  }
}
