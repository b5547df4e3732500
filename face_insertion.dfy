// addFace as a function of the mesh state: the input checks, the
// half-edge creation loop (one step per polygon side), the next/prev
// linking loop, and the closed form of the resulting state.

module FaceInsertion {
  import opened MeshTypes
  import opened HalfEdgeTopology

  /** Why addFace refused a polygon, with the code it reports. */
  datatype FaceError =
    | TooFewVertices(count: nat)
    | InvalidVertexIndex(position: nat)
    | DuplicateVertex(first: nat, second: nat)
    | NonManifoldEdge(position: nat)
  {
    function Code(): string
    {
      match this
      case TooFewVertices(_) => "FACE_TOO_FEW_VERTICES"
      case InvalidVertexIndex(_) => "INVALID_VERTEX_INDEX"
      case DuplicateVertex(_, _) => "DUPLICATE_VERTEX_IN_FACE"
      case NonManifoldEdge(_) => "NON_MANIFOLD_EDGE"
    }
  }

  // ---------------------------------------------------------------------
  // Input checks

  /** The first position at or after `i` whose vertex does not exist. */
  function FirstMissingVertex(verts: seq<Index32>, numVertices: nat, i: nat): (r: Option<nat>)
    requires i <= |verts|
    ensures r.None? <==> forall j | i <= j < |verts| :: verts[j] < numVertices
    ensures r.Some? ==> i <= r.value < |verts| && verts[r.value] >= numVertices
                        && forall j | i <= j < r.value :: verts[j] < numVertices
    decreases |verts| - i
  {
    if i == |verts| then None
    else if verts[i] >= numVertices then Some(i)
    else FirstMissingVertex(verts, numVertices, i + 1)
  }

  /** The first position at or after `j` that repeats the vertex at `i`. */
  function FirstRepeatOf(verts: seq<Index32>, i: nat, j: nat): (r: Option<nat>)
    requires i < |verts| && j <= |verts|
    ensures r.None? <==> forall k | j <= k < |verts| :: verts[k] != verts[i]
    ensures r.Some? ==> j <= r.value < |verts| && verts[r.value] == verts[i]
                        && forall k | j <= k < r.value :: verts[k] != verts[i]
    decreases |verts| - j
  {
    if j == |verts| then None
    else if verts[j] == verts[i] then Some(j)
    else FirstRepeatOf(verts, i, j + 1)
  }

  /** The first pair `(a, b)`, `i <= a < b`, of equal vertices, in the order
      the nested duplicate scan meets them. */
  function FirstDuplicate(verts: seq<Index32>, i: nat): (r: Option<(nat, nat)>)
    requires i <= |verts|
    ensures r.None? <==> forall a, b | i <= a < b < |verts| :: verts[a] != verts[b]
    ensures r.Some? ==> var (a, b) := r.value;
              i <= a < b < |verts| && verts[a] == verts[b]
              && (forall a', b' | i <= a' < a && a' < b' < |verts| :: verts[a'] != verts[b'])
              && (forall b' | a < b' < b :: verts[b'] != verts[a])
    decreases |verts| - i
  {
    if i == |verts| then None
    else match FirstRepeatOf(verts, i, i + 1)
      case Some(b) => Some((i, b))
      case None => FirstDuplicate(verts, i + 1)
  }

  /** All vertices of the polygon exist (so each is a 32-bit index). */
  ghost predicate VerticesExist(d: MeshData, verts: seq<Index32>)
  {
    |d.vertices| < INVALID_INDEX && forall j | 0 <= j < |verts| :: verts[j] < |d.vertices|
  }

  ghost predicate Distinct(verts: seq<Index32>)
  {
    forall a, b | 0 <= a < b < |verts| :: verts[a] != verts[b]
  }

  /** Tail and head of side `i` of the polygon. */
  function Tail(verts: seq<Index32>, i: nat): Index32
    requires i < |verts|
  {
    verts[i]
  }

  function Head(verts: seq<Index32>, i: nat): Index32
    requires i < |verts|
  {
    verts[Succ(i, |verts|)]
  }

  /** The key of side `i` in its own direction, and reversed. */
  function ForwardKey(verts: seq<Index32>, i: nat): DirectedKey
    requires i < |verts|
  {
    DirectedEdgeKey(Tail(verts, i), Head(verts, i))
  }

  function ReverseKey(verts: seq<Index32>, i: nat): DirectedKey
    requires i < |verts|
  {
    DirectedEdgeKey(Head(verts, i), Tail(verts, i))
  }

  /** Side `i` cannot be added: the same directed edge is already
      registered, or the reverse one is registered and already has a twin. */
  predicate SideConflicts(d: MeshData, verts: seq<Index32>, i: nat)
    requires d.LinksInRange() && d.MapSound()
    requires VerticesExist(d, verts) && i < |verts|
  {
    ForwardKey(verts, i) in d.edgeMap
    || (ReverseKey(verts, i) in d.edgeMap
        && d.halfEdges[d.edgeMap[ReverseKey(verts, i)]].twin != INVALID_INDEX)
  }

  function FirstSideConflict(d: MeshData, verts: seq<Index32>, i: nat): (r: Option<nat>)
    requires d.LinksInRange() && d.MapSound()
    requires VerticesExist(d, verts) && i <= |verts|
    ensures r.None? <==> forall j | i <= j < |verts| :: !SideConflicts(d, verts, j)
    ensures r.Some? ==> i <= r.value < |verts| && SideConflicts(d, verts, r.value)
                        && forall j | i <= j < r.value :: !SideConflicts(d, verts, j)
    decreases |verts| - i
  {
    if i == |verts| then None
    else if SideConflicts(d, verts, i) then Some(i)
    else FirstSideConflict(d, verts, i + 1)
  }

  /** The checks addFace performs before it changes anything, in order. */
  function CheckFace(d: MeshData, verts: seq<Index32>): (r: Option<FaceError>)
    requires d.LinksInRange() && d.MapSound()
  {
    if |verts| < 3 then Some(TooFewVertices(|verts|))
    else match FirstMissingVertex(verts, |d.vertices|, 0)
      case Some(p) => Some(InvalidVertexIndex(p))
      case None =>
        match FirstDuplicate(verts, 0)
        case Some((a, b)) => Some(DuplicateVertex(a, b))
        case None =>
          match FirstSideConflict(d, verts, 0)
          case Some(p) => Some(NonManifoldEdge(p))
          case None => None
  }

  /** A polygon addFace accepts. */
  ghost predicate Acceptable(d: MeshData, verts: seq<Index32>)
    requires d.LinksInRange() && d.MapSound()
  {
    |verts| >= 3 && VerticesExist(d, verts) && Distinct(verts)
    && forall i | 0 <= i < |verts| :: !SideConflicts(d, verts, i)
  }

  /** The checks pass exactly on acceptable polygons, and each error names
      the first offending position. */
  lemma CheckFaceAccepts(d: MeshData, verts: seq<Index32>)
    requires d.LinksInRange() && d.MapSound()
    ensures CheckFace(d, verts).None? <==> Acceptable(d, verts)
    ensures CheckFace(d, verts) == Some(TooFewVertices(|verts|)) <==> |verts| < 3
    ensures CheckFace(d, verts).Some? && CheckFace(d, verts).value.InvalidVertexIndex? ==>
              var p := CheckFace(d, verts).value.position;
              p < |verts| && verts[p] >= |d.vertices|
    ensures CheckFace(d, verts).Some? && CheckFace(d, verts).value.DuplicateVertex? ==>
              var (a, b) := (CheckFace(d, verts).value.first, CheckFace(d, verts).value.second);
              a < b < |verts| && verts[a] == verts[b]
  {
  }

  /** A half-edge along side `i`, or a paired one against it, makes the
      side conflict: it is registered itself or its twin is. */
  lemma ExistingSideConflicts(d: MeshData, verts: seq<Index32>, i: nat, h: nat)
    requires d.LinksInRange() && d.MapSound() && d.MapCovers() && d.TwinsPaired()
    requires VerticesExist(d, verts) && i < |verts| && h < |d.halfEdges|
    requires || (d.FromVertex(h) == Tail(verts, i) && d.halfEdges[h].to == Head(verts, i))
             || (d.FromVertex(h) == Head(verts, i) && d.halfEdges[h].to == Tail(verts, i)
                 && d.halfEdges[h].twin != INVALID_INDEX)
    ensures SideConflicts(d, verts, i)
  {
    if !d.Registered(h) {
      var t := d.halfEdges[h].twin;
      assert d.Registered(t);
      assert d.KeyOf(t) == DirectedEdgeKey(d.halfEdges[h].to, d.FromVertex(h));
    }
  }

  /** In a well-formed mesh, side `i` conflicts exactly when a half-edge with
      the same direction already exists, or the opposite half-edge exists and
      already has a twin. */
  lemma SideConflictMeaning(d: MeshData, verts: seq<Index32>, i: nat)
    requires d.LinksInRange() && d.MapSound() && d.MapCovers() && d.TwinsPaired()
    requires VerticesExist(d, verts) && i < |verts|
    ensures SideConflicts(d, verts, i) <==>
      (exists h | 0 <= h < |d.halfEdges| ::
         d.FromVertex(h) == Tail(verts, i) && d.halfEdges[h].to == Head(verts, i))
      || (exists h | 0 <= h < |d.halfEdges| ::
         d.FromVertex(h) == Head(verts, i) && d.halfEdges[h].to == Tail(verts, i)
         && d.halfEdges[h].twin != INVALID_INDEX)
  {
    var a, b := Tail(verts, i), Head(verts, i);
    var forward, reverse := ForwardKey(verts, i), ReverseKey(verts, i);
    forall h | 0 <= h < |d.halfEdges| && d.FromVertex(h) == a && d.halfEdges[h].to == b
      ensures SideConflicts(d, verts, i)
    {
      ExistingSideConflicts(d, verts, i, h);
    }
    forall h | 0 <= h < |d.halfEdges| && d.FromVertex(h) == b && d.halfEdges[h].to == a
               && d.halfEdges[h].twin != INVALID_INDEX
      ensures SideConflicts(d, verts, i)
    {
      ExistingSideConflicts(d, verts, i, h);
    }
    if forward in d.edgeMap {
      var h := d.edgeMap[forward];
      d.EndpointsAreVertices(h);
      DirectedEdgeKeyInjective(d.FromVertex(h), d.halfEdges[h].to, a, b);
    } else if reverse in d.edgeMap && d.halfEdges[d.edgeMap[reverse]].twin != INVALID_INDEX {
      var h := d.edgeMap[reverse];
      d.EndpointsAreVertices(h);
      DirectedEdgeKeyInjective(d.FromVertex(h), d.halfEdges[h].to, b, a);
    }
  }

  // ---------------------------------------------------------------------
  // Construction: the creation loop, one step per side, then the link loop

  /** Every map entry names an existing half-edge. */
  ghost predicate MapInRange(d: MeshData)
  {
    forall k | k in d.edgeMap :: d.edgeMap[k] < |d.halfEdges|
  }

  /** One iteration of the creation loop for side `i` of a face `f`: append
      a half-edge to `Head(i)` with every other link unset, make it the
      outgoing half-edge of `Tail(i)` if that has none, then either pair it
      with the registered opposite half-edge and share its edge, or give it
      a fresh edge and register it under its own key. */
  function CreateStep(d: MeshData, verts: seq<Index32>, f: nat, i: nat): (r: MeshData)
    requires i < |verts| && VerticesExist(d, verts) && MapInRange(d)
    ensures MapInRange(r) && |r.vertices| == |d.vertices| && r.faces == d.faces
    ensures |r.halfEdges| == |d.halfEdges| + 1
  {
    var v0, v1 := Tail(verts, i), Head(verts, i);
    var he := |d.halfEdges|;
    var H := d.halfEdges + [DefaultHalfEdge().(to := v1, face := f)];
    var V := if d.vertices[v0].outgoing == INVALID_INDEX
             then d.vertices[v0 := d.vertices[v0].(outgoing := he)]
             else d.vertices;
    if ReverseKey(verts, i) in d.edgeMap then
      var t := d.edgeMap[ReverseKey(verts, i)];
      var H' := H[t := H[t].(twin := he)];
      d.(vertices := V, halfEdges := H'[he := H'[he].(twin := t, edge := H[t].edge)])
    else
      d.(vertices := V,
         halfEdges := H[he := H[he].(edge := |d.edges|)],
         edges := d.edges + [DefaultEdge()],
         edgeMap := d.edgeMap[ForwardKey(verts, i) := he])
  }

  /** The state after the first `i` iterations of the creation loop. */
  function CreatedHalfEdges(d: MeshData, verts: seq<Index32>, f: nat, i: nat): (r: MeshData)
    requires i <= |verts| && VerticesExist(d, verts) && MapInRange(d)
    ensures MapInRange(r) && |r.vertices| == |d.vertices| && r.faces == d.faces
    ensures |r.halfEdges| == |d.halfEdges| + i
  {
    if i == 0 then d
    else CreateStep(CreatedHalfEdges(d, verts, f, i - 1), verts, f, i - 1)
  }

  /** The link loop after `i` iterations: the half-edge of side `k < i`,
      at `base + k`, points to those of sides `k + 1` and `k - 1` (mod n). */
  function Linked(H: seq<HalfEdge>, base: nat, n: nat, i: nat): (r: seq<HalfEdge>)
    requires base + n <= |H| && i <= n
    ensures |r| == |H|
  {
    if i == 0 then H
    else
      var G := Linked(H, base, n, i - 1);
      G[base + i - 1 := G[base + i - 1].(next := base + Succ(i - 1, n), prev := base + Pred(i - 1, n))]
  }

  /** The link loop only rewires `next`/`prev` of the face's own half-edges. */
  lemma {:induction false} LinkedShape(H: seq<HalfEdge>, base: nat, n: nat, i: nat)
    requires base + n <= |H| && i <= n
    ensures forall h | 0 <= h < |H| ::
              Linked(H, base, n, i)[h]
              == if base <= h < base + i
                 then H[h].(next := base + Succ(h - base, n), prev := base + Pred(h - base, n))
                 else H[h]
  {
    if i > 0 {
      LinkedShape(H, base, n, i - 1);
    }
  }

  /** The result of addFace. */
  datatype AddFaceOutcome = Accepted(mesh: MeshData, face: nat) | Rejected(error: FaceError)

  /** The half-edge, edge and face records addFace appends for an accepted
      polygon, and the patched links of existing records. */
  function Assembled(d: MeshData, verts: seq<Index32>): (r: MeshData)
    requires |verts| >= 1 && VerticesExist(d, verts) && MapInRange(d)
  {
    var base, n := |d.halfEdges|, |verts|;
    var c := CreatedHalfEdges(d, verts, |d.faces|, n);
    c.(halfEdges := Linked(c.halfEdges, base, n, n), faces := c.faces + [Face(base, n)])
  }

  /** `addFace`: run the checks, and only when they all pass build the face. */
  function AddFace(d: MeshData, verts: seq<Index32>): (r: AddFaceOutcome)
    requires d.LinksInRange() && d.MapSound()
    ensures r.Rejected? <==> CheckFace(d, verts).Some?
    ensures r.Rejected? ==> r.error == CheckFace(d, verts).value
    ensures r.Accepted? ==> r.face == |d.faces| && |r.mesh.faces| == |d.faces| + 1
  {
    match CheckFace(d, verts)
    case Some(e) => Rejected(e)
    case None => Accepted(Assembled(d, verts), |d.faces|)
  }

  // ---------------------------------------------------------------------
  // The state after the creation loop, field by field

  /** Side `i` finds its opposite half-edge already registered. */
  predicate TwinFound(d: MeshData, verts: seq<Index32>, i: nat)
    requires i < |verts|
  {
    ReverseKey(verts, i) in d.edgeMap
  }

  /** The opposite half-edge side `i` is paired with, or the sentinel. */
  function TwinOf(d: MeshData, verts: seq<Index32>, i: nat): nat
    requires i < |verts|
  {
    if TwinFound(d, verts, i) then d.edgeMap[ReverseKey(verts, i)] else INVALID_INDEX
  }

  /** The number of sides before `i` that create a new edge. */
  function NewEdgesBefore(d: MeshData, verts: seq<Index32>, i: nat): (c: nat)
    requires i <= |verts|
    ensures c <= i
  {
    if i == 0 then 0
    else NewEdgesBefore(d, verts, i - 1) + (if TwinFound(d, verts, i - 1) then 0 else 1)
  }

  /** The edge side `i` lies on: its twin's, or the next fresh one. */
  function EdgeOfSide(d: MeshData, verts: seq<Index32>, i: nat): nat
    requires i < |verts| && MapInRange(d)
  {
    if TwinFound(d, verts, i) then d.halfEdges[TwinOf(d, verts, i)].edge
    else |d.edges| + NewEdgesBefore(d, verts, i)
  }

  /** The half-edge of side `i` before the link loop. */
  function NewHalfEdge(d: MeshData, verts: seq<Index32>, i: nat): HalfEdge
    requires i < |verts| && MapInRange(d)
  {
    HalfEdge(Head(verts, i), INVALID_INDEX, INVALID_INDEX,
             TwinOf(d, verts, i), EdgeOfSide(d, verts, i), |d.faces|)
  }

  /** The twin of existing half-edge `h` after `i` sides: the last side
      among them that paired with it, or its old twin. */
  function PatchedTwin(d: MeshData, verts: seq<Index32>, h: nat, i: nat): nat
    requires h < |d.halfEdges| && i <= |verts|
  {
    if i == 0 then d.halfEdges[h].twin
    else if TwinFound(d, verts, i - 1) && TwinOf(d, verts, i - 1) == h then |d.halfEdges| + i - 1
    else PatchedTwin(d, verts, h, i - 1)
  }

  /** The outgoing half-edge of vertex `v` after `i` sides. */
  function OutgoingAfter(d: MeshData, verts: seq<Index32>, v: nat, i: nat): nat
    requires v < |d.vertices| && i <= |verts|
  {
    if i == 0 then d.vertices[v].outgoing
    else
      var o := OutgoingAfter(d, verts, v, i - 1);
      if Tail(verts, i - 1) == v && o == INVALID_INDEX then |d.halfEdges| + i - 1 else o
  }

  /** The directed-edge map after `i` sides. */
  function MapAfter(d: MeshData, verts: seq<Index32>, i: nat): map<DirectedKey, nat>
    requires i <= |verts|
  {
    if i == 0 then d.edgeMap
    else
      var m := MapAfter(d, verts, i - 1);
      if TwinFound(d, verts, i - 1) then m else m[ForwardKey(verts, i - 1) := |d.halfEdges| + i - 1]
  }

  /** The hypotheses under which the creation loop is analysed: the
      polygon passed the vertex checks. */
  ghost predicate Creatable(d: MeshData, verts: seq<Index32>)
  {
    |verts| >= 3 && VerticesExist(d, verts) && Distinct(verts) && MapInRange(d)
  }

  /** In a polygon of at least three distinct vertices, no side runs
      opposite to another side, and no two sides share a key. */
  lemma SideKeysDistinct(verts: seq<Index32>, i: nat, j: nat)
    requires |verts| >= 3 && Distinct(verts) && i < |verts| && j < |verts|
    ensures ReverseKey(verts, i) != ForwardKey(verts, j)
    ensures i != j ==> ForwardKey(verts, i) != ForwardKey(verts, j)
    ensures i != j ==> ReverseKey(verts, i) != ReverseKey(verts, j)
    ensures Tail(verts, i) != Head(verts, i)
  {
    var n := |verts|;
    DirectedEdgeKeyInjective(Head(verts, i), Tail(verts, i), Tail(verts, j), Head(verts, j));
    DirectedEdgeKeyInjective(Tail(verts, i), Head(verts, i), Tail(verts, j), Head(verts, j));
    DirectedEdgeKeyInjective(Head(verts, i), Tail(verts, i), Head(verts, j), Tail(verts, j));
  }

  /** One creation step, field by field: existing half-edges change only
      in the twin link of the opposite half-edge... */
  lemma StepOldHalfEdge(c: MeshData, verts: seq<Index32>, f: nat, k: nat, h: nat)
    requires k < |verts| && VerticesExist(c, verts) && MapInRange(c) && h < |c.halfEdges|
    ensures var r, rev := CreateStep(c, verts, f, k), ReverseKey(verts, k);
      r.halfEdges[h] == (if rev in c.edgeMap && h == c.edgeMap[rev]
                         then c.halfEdges[h].(twin := |c.halfEdges|) else c.halfEdges[h])
  {
  }

  /** ... the new half-edge is paired with the opposite one and shares its
      edge, or gets the next fresh edge... */
  lemma StepNewHalfEdge(c: MeshData, verts: seq<Index32>, f: nat, k: nat)
    requires k < |verts| && VerticesExist(c, verts) && MapInRange(c)
    ensures var r, rev := CreateStep(c, verts, f, k), ReverseKey(verts, k);
      r.halfEdges[|c.halfEdges|]
      == (if rev in c.edgeMap
          then HalfEdge(Head(verts, k), INVALID_INDEX, INVALID_INDEX, c.edgeMap[rev],
                        c.halfEdges[c.edgeMap[rev]].edge, f)
          else HalfEdge(Head(verts, k), INVALID_INDEX, INVALID_INDEX, INVALID_INDEX, |c.edges|, f))
  {
  }

  /** ... a fresh edge is appended only when there is no opposite... */
  lemma StepEdges(c: MeshData, verts: seq<Index32>, f: nat, k: nat)
    requires k < |verts| && VerticesExist(c, verts) && MapInRange(c)
    ensures CreateStep(c, verts, f, k).edges
            == if ReverseKey(verts, k) in c.edgeMap then c.edges else c.edges + [DefaultEdge()]
  {
  }

  /** ... the tail gets an outgoing half-edge if it had none... */
  lemma StepVertices(c: MeshData, verts: seq<Index32>, f: nat, k: nat)
    requires k < |verts| && VerticesExist(c, verts) && MapInRange(c)
    ensures var r := CreateStep(c, verts, f, k);
      forall v | 0 <= v < |c.vertices| ::
        r.vertices[v] == (if v == Tail(verts, k) && c.vertices[v].outgoing == INVALID_INDEX
                          then c.vertices[v].(outgoing := |c.halfEdges|) else c.vertices[v])
  {
  }

  /** ... and the new half-edge is registered only when there is no opposite. */
  lemma StepMap(c: MeshData, verts: seq<Index32>, f: nat, k: nat)
    requires k < |verts| && VerticesExist(c, verts) && MapInRange(c)
    ensures CreateStep(c, verts, f, k).edgeMap
            == if ReverseKey(verts, k) in c.edgeMap then c.edgeMap
               else c.edgeMap[ForwardKey(verts, k) := |c.halfEdges|]
  {
  }

  /** The creation loop leaves an existing half-edge alone except for the
      twin it may link. */
  lemma {:induction false} CreatedOldHalfEdge(d: MeshData, verts: seq<Index32>, i: nat, h: nat)
    requires Creatable(d, verts) && i <= |verts| && h < |d.halfEdges|
    ensures CreatedHalfEdges(d, verts, |d.faces|, i).halfEdges[h]
            == d.halfEdges[h].(twin := PatchedTwin(d, verts, h, i))
  {
    if i > 0 {
      var k := i - 1;
      CreatedOldHalfEdge(d, verts, k, h);
      CreatedMap(d, verts, k);
      MapAfterLookup(d, verts, k, k);
      StepOldHalfEdge(CreatedHalfEdges(d, verts, |d.faces|, k), verts, |d.faces|, k, h);
    }
  }

  lemma CreatedOldHalfEdges(d: MeshData, verts: seq<Index32>, i: nat)
    requires Creatable(d, verts) && i <= |verts|
    ensures forall h | 0 <= h < |d.halfEdges| ::
              CreatedHalfEdges(d, verts, |d.faces|, i).halfEdges[h]
              == d.halfEdges[h].(twin := PatchedTwin(d, verts, h, i))
  {
    forall h | 0 <= h < |d.halfEdges|
      ensures CreatedHalfEdges(d, verts, |d.faces|, i).halfEdges[h]
              == d.halfEdges[h].(twin := PatchedTwin(d, verts, h, i))
    {
      CreatedOldHalfEdge(d, verts, i, h);
    }
  }

  /** The half-edge of the side created last, before linking. */
  lemma CreatedLastHalfEdge(d: MeshData, verts: seq<Index32>, i: nat)
    requires Creatable(d, verts) && 0 < i <= |verts|
    ensures CreatedHalfEdges(d, verts, |d.faces|, i).halfEdges[|d.halfEdges| + (i - 1)] == NewHalfEdge(d, verts, i - 1)
  {
    var k := i - 1;
    var c := CreatedHalfEdges(d, verts, |d.faces|, k);
    CreatedMap(d, verts, k);
    MapAfterLookup(d, verts, k, k);
    CreatedEdges(d, verts, k);
    StepNewHalfEdge(c, verts, |d.faces|, k);
    if TwinFound(d, verts, k) {
      var t := TwinOf(d, verts, k);
      CreatedOldHalfEdge(d, verts, k, t);
    }
  }

  /** A later step of the creation loop does not touch the half-edge of an
      earlier side. */
  lemma StepKeepsNewHalfEdge(d: MeshData, verts: seq<Index32>, i: nat, j: nat)
    requires Creatable(d, verts) && j + 1 < i <= |verts|
    ensures CreatedHalfEdges(d, verts, |d.faces|, i).halfEdges[|d.halfEdges| + j]
            == CreatedHalfEdges(d, verts, |d.faces|, i - 1).halfEdges[|d.halfEdges| + j]
  {
    var k := i - 1;
    CreatedMap(d, verts, k);
    MapAfterLookup(d, verts, k, k);
    StepOldHalfEdge(CreatedHalfEdges(d, verts, |d.faces|, k), verts, |d.faces|, k, |d.halfEdges| + j);
  }

  /** The half-edge of side `j`, once created, is not touched by later
      steps of the creation loop. */
  lemma {:induction false} CreatedNewHalfEdge(d: MeshData, verts: seq<Index32>, i: nat, j: nat)
    requires Creatable(d, verts) && j < i <= |verts|
    ensures CreatedHalfEdges(d, verts, |d.faces|, i).halfEdges[|d.halfEdges| + j] == NewHalfEdge(d, verts, j)
  {
    if j == i - 1 {
      CreatedLastHalfEdge(d, verts, i);
    } else {
      CreatedNewHalfEdge(d, verts, i - 1, j);
      StepKeepsNewHalfEdge(d, verts, i, j);
    }
  }

  lemma CreatedNewHalfEdges(d: MeshData, verts: seq<Index32>, i: nat)
    requires Creatable(d, verts) && i <= |verts|
    ensures forall j | 0 <= j < i ::
              CreatedHalfEdges(d, verts, |d.faces|, i).halfEdges[|d.halfEdges| + j]
              == NewHalfEdge(d, verts, j)
  {
    forall j | 0 <= j < i
      ensures CreatedHalfEdges(d, verts, |d.faces|, i).halfEdges[|d.halfEdges| + j]
              == NewHalfEdge(d, verts, j)
    {
      CreatedNewHalfEdge(d, verts, i, j);
    }
  }

  /** The creation loop appends one default edge per side without a twin. */
  lemma {:induction false} CreatedEdges(d: MeshData, verts: seq<Index32>, i: nat)
    requires Creatable(d, verts) && i <= |verts|
    ensures var c := CreatedHalfEdges(d, verts, |d.faces|, i);
      && |c.edges| == |d.edges| + NewEdgesBefore(d, verts, i)
      && forall e | 0 <= e < |c.edges| :: c.edges[e] == (if e < |d.edges| then d.edges[e] else DefaultEdge())
  {
    if i > 0 {
      var k := i - 1;
      var c := CreatedHalfEdges(d, verts, |d.faces|, k);
      CreatedEdges(d, verts, k);
      CreatedMap(d, verts, k);
      MapAfterLookup(d, verts, k, k);
      StepEdges(c, verts, |d.faces|, k);
      var c' := CreatedHalfEdges(d, verts, |d.faces|, i);
      if TwinFound(d, verts, k) {
        assert c'.edges == c.edges;
      } else {
        assert c'.edges == c.edges + [DefaultEdge()];
      }
    }
  }

  /** The creation loop sets outgoing pointers only where they were unset. */
  lemma {:induction false} CreatedVertices(d: MeshData, verts: seq<Index32>, i: nat)
    requires Creatable(d, verts) && i <= |verts|
    ensures forall v | 0 <= v < |d.vertices| ::
              CreatedHalfEdges(d, verts, |d.faces|, i).vertices[v]
              == d.vertices[v].(outgoing := OutgoingAfter(d, verts, v, i))
  {
    if i > 0 {
      var k := i - 1;
      CreatedVertices(d, verts, k);
      StepVertices(CreatedHalfEdges(d, verts, |d.faces|, k), verts, |d.faces|, k);
    }
  }

  /** The creation loop registers each side that found no twin. */
  lemma {:induction false} CreatedMap(d: MeshData, verts: seq<Index32>, i: nat)
    requires Creatable(d, verts) && i <= |verts|
    ensures CreatedHalfEdges(d, verts, |d.faces|, i).edgeMap == MapAfter(d, verts, i)
  {
    if i > 0 {
      var k := i - 1;
      CreatedMap(d, verts, k);
      MapAfterLookup(d, verts, k, k);
      StepMap(CreatedHalfEdges(d, verts, |d.faces|, k), verts, |d.faces|, k);
    }
  }

  /** Looking up the reverse key of side `j` after `i` sides sees the
      original map: no side of the face registers an opposite key. */
  lemma {:induction false} MapAfterLookup(d: MeshData, verts: seq<Index32>, i: nat, j: nat)
    requires |verts| >= 3 && Distinct(verts) && i <= |verts| && j < |verts|
    ensures ReverseKey(verts, j) in MapAfter(d, verts, i) <==> TwinFound(d, verts, j)
    ensures TwinFound(d, verts, j) ==> MapAfter(d, verts, i)[ReverseKey(verts, j)] == TwinOf(d, verts, j)
  {
    MapAfterKeepsReverse(d, verts, i, ReverseKey(verts, j));
  }

  /** A key that is no side's forward key keeps its old entry, or its
      absence, through the creation loop. */
  lemma {:induction false} MapAfterKeepsReverse(d: MeshData, verts: seq<Index32>, i: nat, k: DirectedKey)
    requires i <= |verts| && forall s | 0 <= s < |verts| :: ForwardKey(verts, s) != k
    ensures k in MapAfter(d, verts, i) <==> k in d.edgeMap
    ensures k in d.edgeMap ==> MapAfter(d, verts, i)[k] == d.edgeMap[k]
  {
    if i > 0 {
      MapAfterKeepsReverse(d, verts, i - 1, k);
      assert ForwardKey(verts, i - 1) != k;
    }
  }

  // ---------------------------------------------------------------------
  // Properties of the field-by-field description

  /** A polygon addFace accepts into a well-formed mesh. */
  ghost predicate Insertable(d: MeshData, verts: seq<Index32>)
  {
    d.WellFormed() && Acceptable(d, verts)
  }

  /** What an accepted side with a twin finds in the existing mesh: a
      registered half-edge running the opposite way that has no twin yet. */
  lemma TwinOfFacts(d: MeshData, verts: seq<Index32>, j: nat)
    requires Insertable(d, verts) && j < |verts| && TwinFound(d, verts, j)
    ensures var t := TwinOf(d, verts, j);
      && t < |d.halfEdges| && d.Registered(t) && d.KeyOf(t) == ReverseKey(verts, j)
      && d.halfEdges[t].twin == INVALID_INDEX
      && d.FromVertex(t) == Head(verts, j) && d.halfEdges[t].to == Tail(verts, j)
  {
    var t := TwinOf(d, verts, j);
    assert !SideConflicts(d, verts, j);
    d.EndpointsAreVertices(t);
    DirectedEdgeKeyInjective(d.FromVertex(t), d.halfEdges[t].to, Head(verts, j), Tail(verts, j));
  }

  /** The facts about an accepted polygon the creation loop relies on: no
      two sides pair with the same existing half-edge, and no side's own
      key is registered yet. */
  ghost predicate SidesSeparate(d: MeshData, verts: seq<Index32>)
  {
    Creatable(d, verts) && TwinsDistinct(d, verts)
    && (forall j | 0 <= j < |verts| :: ForwardKey(verts, j) !in d.edgeMap)
  }

  /** No two sides pair with the same existing half-edge. */
  ghost predicate TwinsDistinct(d: MeshData, verts: seq<Index32>)
  {
    forall i, j | 0 <= i < |verts| && 0 <= j < |verts| && TwinFound(d, verts, i)
      && TwinFound(d, verts, j) && TwinOf(d, verts, i) == TwinOf(d, verts, j) :: i == j
  }

  lemma InsertableSidesSeparate(d: MeshData, verts: seq<Index32>)
    requires Insertable(d, verts)
    ensures SidesSeparate(d, verts)
  {
    forall i, j | 0 <= i < |verts| && 0 <= j < |verts| && TwinFound(d, verts, i)
          && TwinFound(d, verts, j) && TwinOf(d, verts, i) == TwinOf(d, verts, j)
      ensures i == j
    {
      TwinOfInjective(d, verts, i, j);
    }
    forall j | 0 <= j < |verts|
      ensures ForwardKey(verts, j) !in d.edgeMap
    {
      assert !SideConflicts(d, verts, j);
    }
  }

  /** Two sides never pair with the same existing half-edge. */
  lemma TwinOfInjective(d: MeshData, verts: seq<Index32>, i: nat, j: nat)
    requires Insertable(d, verts) && i < |verts| && j < |verts|
    requires TwinFound(d, verts, i) && TwinFound(d, verts, j) && TwinOf(d, verts, i) == TwinOf(d, verts, j)
    ensures i == j
  {
    TwinOfFacts(d, verts, i);
    TwinOfFacts(d, verts, j);
    SideKeysDistinct(verts, i, j);
  }

  /** An existing half-edge keeps its twin unless exactly one side of the
      face paired with it. */
  lemma {:induction false} PatchedTwinSpec(d: MeshData, verts: seq<Index32>, h: nat, i: nat)
    requires TwinsDistinct(d, verts) && h < |d.halfEdges| && i <= |verts|
    ensures var p := PatchedTwin(d, verts, h, i);
      p == d.halfEdges[h].twin
      || (|d.halfEdges| <= p < |d.halfEdges| + i && TwinFound(d, verts, p - |d.halfEdges|)
          && TwinOf(d, verts, p - |d.halfEdges|) == h)
    ensures forall j | 0 <= j < i && TwinFound(d, verts, j) && TwinOf(d, verts, j) == h ::
              PatchedTwin(d, verts, h, i) == |d.halfEdges| + j
  {
    if i > 0 {
      PatchedTwinSpec(d, verts, h, i - 1);
      forall j | 0 <= j < i && TwinFound(d, verts, j) && TwinOf(d, verts, j) == h
        ensures PatchedTwin(d, verts, h, i) == |d.halfEdges| + j
      {
      }
    }
  }

  /** The outgoing pointer of a vertex is set at most once, by the first
      side leaving it, and stays set. */
  lemma {:induction false} OutgoingAfterSpec(d: MeshData, verts: seq<Index32>, v: nat, i: nat)
    requires v < |d.vertices| && i <= |verts| && |d.halfEdges| + i <= INVALID_INDEX
    ensures var o := OutgoingAfter(d, verts, v, i);
      && (o == d.vertices[v].outgoing
          || (d.vertices[v].outgoing == INVALID_INDEX && |d.halfEdges| <= o < |d.halfEdges| + i
              && Tail(verts, o - |d.halfEdges|) == v))
      && (d.vertices[v].outgoing != INVALID_INDEX ==> o == d.vertices[v].outgoing)
      && (forall j | 0 <= j < i && Tail(verts, j) == v :: o != INVALID_INDEX)
  {
    if i > 0 {
      OutgoingAfterSpec(d, verts, v, i - 1);
    }
  }

  /** The map after `i` sides keeps every old entry ... */
  lemma {:induction false} MapAfterKeeps(d: MeshData, verts: seq<Index32>, i: nat)
    requires SidesSeparate(d, verts) && i <= |verts|
    ensures forall k | k in d.edgeMap :: k in MapAfter(d, verts, i) && MapAfter(d, verts, i)[k] == d.edgeMap[k]
  {
    if i > 0 {
      MapAfterKeeps(d, verts, i - 1);
    }
  }

  /** ... registers each side without a twin under its own key ... */
  lemma {:induction false} MapAfterRegisters(d: MeshData, verts: seq<Index32>, i: nat)
    requires SidesSeparate(d, verts) && i <= |verts|
    ensures forall j | 0 <= j < i && !TwinFound(d, verts, j) ::
              ForwardKey(verts, j) in MapAfter(d, verts, i)
              && MapAfter(d, verts, i)[ForwardKey(verts, j)] == |d.halfEdges| + j
  {
    if i > 0 {
      var k := i - 1;
      MapAfterRegisters(d, verts, k);
      forall j | 0 <= j < k
        ensures ForwardKey(verts, j) != ForwardKey(verts, k)
      {
        SideKeysDistinct(verts, j, k);
      }
    }
  }

  /** ... and holds nothing else: a key the old map lacks was put there
      by a side that found no twin. */
  lemma {:induction false} MapAfterSide(d: MeshData, verts: seq<Index32>, i: nat, k: DirectedKey) returns (j: nat)
    requires i <= |verts| && k in MapAfter(d, verts, i) && k !in d.edgeMap
    ensures j < i && !TwinFound(d, verts, j) && k == ForwardKey(verts, j)
  {
    if !TwinFound(d, verts, i - 1) && k == ForwardKey(verts, i - 1) {
      j := i - 1;
    } else {
      j := MapAfterSide(d, verts, i - 1, k);
    }
  }

  /** Fresh edge indices strictly increase along the face. */
  lemma {:induction false} NewEdgesIncrease(d: MeshData, verts: seq<Index32>, i: nat, j: nat)
    requires i < j <= |verts| && !TwinFound(d, verts, i)
    ensures NewEdgesBefore(d, verts, i) < NewEdgesBefore(d, verts, j)
  {
    if j > i + 1 {
      NewEdgesIncrease(d, verts, i, j - 1);
    }
  }

  /** Every fresh edge belongs to some side without a twin. */
  lemma {:induction false} NewEdgeOwner(d: MeshData, verts: seq<Index32>, e: nat, i: nat) returns (j: nat)
    requires i <= |verts| && e < NewEdgesBefore(d, verts, i)
    ensures j < i && !TwinFound(d, verts, j) && NewEdgesBefore(d, verts, j) == e
  {
    if e < NewEdgesBefore(d, verts, i - 1) {
      j := NewEdgeOwner(d, verts, e, i - 1);
    } else {
      j := i - 1;
    }
  }

  /** The half-edge of side `j` once the face is assembled. */
  function FinalHalfEdge(d: MeshData, verts: seq<Index32>, j: nat): HalfEdge
    requires j < |verts| && MapInRange(d)
  {
    var base, n := |d.halfEdges|, |verts|;
    NewHalfEdge(d, verts, j).(next := base + Succ(j, n), prev := base + Pred(j, n))
  }

  /** `r` is the mesh addFace assembles from `d` and `verts`, field by field. */
  ghost predicate ShapedAs(d: MeshData, verts: seq<Index32>, r: MeshData)
  {
    var base, n := |d.halfEdges|, |verts|;
    && Creatable(d, verts)
    && |r.halfEdges| == base + n && |r.vertices| == |d.vertices|
    && r.faces == d.faces + [Face(base, n)]
    && r.edgeMap == MapAfter(d, verts, n)
    && (forall h | 0 <= h < base ::
          r.halfEdges[h] == d.halfEdges[h].(twin := PatchedTwin(d, verts, h, n)))
    && (forall h | base <= h < base + n :: r.halfEdges[h] == FinalHalfEdge(d, verts, h - base))
    && |r.edges| == |d.edges| + NewEdgesBefore(d, verts, n)
    && (forall e | 0 <= e < |r.edges| :: r.edges[e] == (if e < |d.edges| then d.edges[e] else DefaultEdge()))
    && (forall v | 0 <= v < |d.vertices| ::
          r.vertices[v] == d.vertices[v].(outgoing := OutgoingAfter(d, verts, v, n)))
  }

  /** The link loop turns the created half-edges `H` into the final ones `L`. */
  lemma LinkedHalfEdges(d: MeshData, verts: seq<Index32>, H: seq<HalfEdge>, L: seq<HalfEdge>)
    requires MapInRange(d)
    requires var base, n := |d.halfEdges|, |verts|;
      && |H| == base + n && |L| == |H|
      && (forall h | 0 <= h < base :: H[h] == d.halfEdges[h].(twin := PatchedTwin(d, verts, h, n)))
      && (forall j | 0 <= j < n :: H[base + j] == NewHalfEdge(d, verts, j))
      && (forall h | 0 <= h < |H| ::
            L[h] == if base <= h < base + n
                    then H[h].(next := base + Succ(h - base, n), prev := base + Pred(h - base, n))
                    else H[h])
    ensures var base, n := |d.halfEdges|, |verts|;
      && (forall h | 0 <= h < base :: L[h] == d.halfEdges[h].(twin := PatchedTwin(d, verts, h, n)))
      && (forall h | base <= h < base + n :: L[h] == FinalHalfEdge(d, verts, h - base))
  {
    var base, n := |d.halfEdges|, |verts|;
    forall h | 0 <= h < base
      ensures L[h] == d.halfEdges[h].(twin := PatchedTwin(d, verts, h, n))
    {
      assert L[h] == H[h];
    }
    forall h | base <= h < base + n
      ensures L[h] == FinalHalfEdge(d, verts, h - base)
    {
      assert H[base + (h - base)] == NewHalfEdge(d, verts, h - base);
    }
  }

  /** The link loop and the face record turn the created half-edges into
      the assembled mesh. */
  lemma LinkingShapes(d: MeshData, verts: seq<Index32>, c: MeshData)
    requires Creatable(d, verts)
    requires var base, n := |d.halfEdges|, |verts|;
      && |c.halfEdges| == base + n && |c.vertices| == |d.vertices| && c.faces == d.faces
      && c.edgeMap == MapAfter(d, verts, n)
      && (forall h | 0 <= h < base ::
            c.halfEdges[h] == d.halfEdges[h].(twin := PatchedTwin(d, verts, h, n)))
      && (forall j | 0 <= j < n :: c.halfEdges[base + j] == NewHalfEdge(d, verts, j))
      && |c.edges| == |d.edges| + NewEdgesBefore(d, verts, n)
      && (forall e | 0 <= e < |c.edges| :: c.edges[e] == (if e < |d.edges| then d.edges[e] else DefaultEdge()))
      && (forall v | 0 <= v < |d.vertices| ::
            c.vertices[v] == d.vertices[v].(outgoing := OutgoingAfter(d, verts, v, n)))
    ensures var base, n := |d.halfEdges|, |verts|;
      ShapedAs(d, verts, c.(halfEdges := Linked(c.halfEdges, base, n, n), faces := c.faces + [Face(base, n)]))
  {
    var base, n := |d.halfEdges|, |verts|;
    LinkedShape(c.halfEdges, base, n, n);
    LinkedHalfEdges(d, verts, c.halfEdges, Linked(c.halfEdges, base, n, n));
  }

  lemma AssembledShape(d: MeshData, verts: seq<Index32>)
    requires Creatable(d, verts)
    ensures ShapedAs(d, verts, Assembled(d, verts))
  {
    var n := |verts|;
    CreatedOldHalfEdges(d, verts, n);
    CreatedNewHalfEdges(d, verts, n);
    CreatedEdges(d, verts, n);
    CreatedVertices(d, verts, n);
    CreatedMap(d, verts, n);
    LinkingShapes(d, verts, CreatedHalfEdges(d, verts, |d.faces|, n));
  }

  // ---------------------------------------------------------------------
  // addFace keeps the mesh well formed

  /** Room for the new records below the sentinel. */
  ghost predicate Fits(d: MeshData, verts: seq<Index32>)
  {
    |d.halfEdges| + |verts| < INVALID_INDEX && |d.edges| + |verts| < INVALID_INDEX
    && |d.faces| + 1 < INVALID_INDEX
  }

  /** What the checks guarantee about the sides of an accepted polygon, in
      the terms the creation loop needs: each side that finds its opposite
      half-edge finds a registered one without a twin, running the other way. */
  ghost predicate SideFacts(d: MeshData, verts: seq<Index32>)
    requires d.LinksInRange()
  {
    && SidesSeparate(d, verts)
    && (forall j | 0 <= j < |verts| && TwinFound(d, verts, j) ::
          && TwinOf(d, verts, j) < |d.halfEdges|
          && d.Registered(TwinOf(d, verts, j))
          && d.halfEdges[TwinOf(d, verts, j)].twin == INVALID_INDEX
          && d.FromVertex(TwinOf(d, verts, j)) == Head(verts, j)
          && d.halfEdges[TwinOf(d, verts, j)].to == Tail(verts, j))
  }

  lemma InsertableSideFacts(d: MeshData, verts: seq<Index32>)
    requires Insertable(d, verts)
    ensures d.LinksInRange() && SideFacts(d, verts)
  {
    InsertableSidesSeparate(d, verts);
    forall j | 0 <= j < |verts| && TwinFound(d, verts, j)
      ensures && TwinOf(d, verts, j) < |d.halfEdges|
              && d.Registered(TwinOf(d, verts, j))
              && d.halfEdges[TwinOf(d, verts, j)].twin == INVALID_INDEX
              && d.FromVertex(TwinOf(d, verts, j)) == Head(verts, j)
              && d.halfEdges[TwinOf(d, verts, j)].to == Tail(verts, j)
    {
      TwinOfFacts(d, verts, j);
    }
  }

  /** `r` is what addFace builds from `d` for an accepted polygon. */
  ghost predicate Grown(d: MeshData, verts: seq<Index32>, r: MeshData)
  {
    d.LinksInRange() && SideFacts(d, verts) && Fits(d, verts) && ShapedAs(d, verts, r)
  }

  /** Every link of the half-edge at `h` in the assembled mesh is in range. */
  lemma GrownLinksOkAt(d: MeshData, verts: seq<Index32>, r: MeshData, h: nat)
    requires Grown(d, verts, r) && h < |r.halfEdges|
    ensures r.LinksOk(r.halfEdges[h])
  {
    var base, n := |d.halfEdges|, |verts|;
    if h < base {
      PatchedTwinSpec(d, verts, h, n);
      assert d.LinksOk(d.halfEdges[h]);
    } else {
      var j := h - base;
      assert r.halfEdges[h] == FinalHalfEdge(d, verts, j);
      if TwinFound(d, verts, j) {
        assert d.LinksOk(d.halfEdges[TwinOf(d, verts, j)]);
      } else {
        NewEdgesIncrease(d, verts, j, n);
      }
    }
  }

  lemma GrownLinksInRange(d: MeshData, verts: seq<Index32>, r: MeshData)
    requires Grown(d, verts, r)
    ensures r.LinksInRange()
  {
    var n := |verts|;
    forall h | 0 <= h < |r.halfEdges|
      ensures r.LinksOk(r.halfEdges[h])
    {
      GrownLinksOkAt(d, verts, r, h);
    }
    forall v | 0 <= v < |r.vertices|
      ensures r.vertices[v].outgoing == INVALID_INDEX || r.vertices[v].outgoing < |r.halfEdges|
    {
      OutgoingAfterSpec(d, verts, v, n);
    }
  }

  /** The tail of an existing half-edge does not change... */
  lemma GrownOldTail(d: MeshData, verts: seq<Index32>, r: MeshData, h: nat)
    requires Grown(d, verts, r) && r.LinksInRange() && h < |d.halfEdges|
    ensures r.FromVertex(h) == d.FromVertex(h) && r.KeyOf(h) == d.KeyOf(h)
    ensures r.halfEdges[h].to == d.halfEdges[h].to
  {
    assert d.LinksOk(d.halfEdges[h]);
  }

  /** ... and the tail of the half-edge of side `j` is `verts[j]`. */
  lemma GrownNewTail(d: MeshData, verts: seq<Index32>, r: MeshData, j: nat)
    requires Grown(d, verts, r) && r.LinksInRange() && j < |verts|
    ensures r.FromVertex(|d.halfEdges| + j) == Tail(verts, j)
    ensures r.KeyOf(|d.halfEdges| + j) == ForwardKey(verts, j)
    ensures r.halfEdges[|d.halfEdges| + j].to == Head(verts, j)
  {
    var base, n := |d.halfEdges|, |verts|;
    assert r.halfEdges[base + j] == FinalHalfEdge(d, verts, j);
    assert r.halfEdges[base + Pred(j, n)] == FinalHalfEdge(d, verts, Pred(j, n));
  }

  /** Tails in the assembled mesh, for all half-edges. */
  lemma GrownTails(d: MeshData, verts: seq<Index32>, r: MeshData)
    requires Grown(d, verts, r) && r.LinksInRange()
    ensures forall h | 0 <= h < |d.halfEdges| :: r.FromVertex(h) == d.FromVertex(h)
    ensures forall h | 0 <= h < |d.halfEdges| :: r.KeyOf(h) == d.KeyOf(h)
    ensures forall h | 0 <= h < |d.halfEdges| :: r.halfEdges[h].to == d.halfEdges[h].to
    ensures forall h | |d.halfEdges| <= h < |d.halfEdges| + |verts| ::
              r.FromVertex(h) == Tail(verts, h - |d.halfEdges|)
    ensures forall h | |d.halfEdges| <= h < |d.halfEdges| + |verts| ::
              r.KeyOf(h) == ForwardKey(verts, h - |d.halfEdges|)
    ensures forall h | |d.halfEdges| <= h < |d.halfEdges| + |verts| ::
              r.halfEdges[h].to == Head(verts, h - |d.halfEdges|)
  {
    GrownOldTails(d, verts, r);
    GrownNewTails(d, verts, r);
  }

  lemma GrownOldTails(d: MeshData, verts: seq<Index32>, r: MeshData)
    requires Grown(d, verts, r) && r.LinksInRange()
    ensures forall h | 0 <= h < |d.halfEdges| :: r.FromVertex(h) == d.FromVertex(h)
    ensures forall h | 0 <= h < |d.halfEdges| :: r.KeyOf(h) == d.KeyOf(h)
    ensures forall h | 0 <= h < |d.halfEdges| :: r.halfEdges[h].to == d.halfEdges[h].to
  {
    forall h | 0 <= h < |d.halfEdges|
      ensures r.FromVertex(h) == d.FromVertex(h) && r.KeyOf(h) == d.KeyOf(h)
      ensures r.halfEdges[h].to == d.halfEdges[h].to
    {
      GrownOldTail(d, verts, r, h);
    }
  }

  lemma GrownNewTails(d: MeshData, verts: seq<Index32>, r: MeshData)
    requires Grown(d, verts, r) && r.LinksInRange()
    ensures forall h | |d.halfEdges| <= h < |d.halfEdges| + |verts| ::
              r.FromVertex(h) == Tail(verts, h - |d.halfEdges|)
    ensures forall h | |d.halfEdges| <= h < |d.halfEdges| + |verts| ::
              r.KeyOf(h) == ForwardKey(verts, h - |d.halfEdges|)
    ensures forall h | |d.halfEdges| <= h < |d.halfEdges| + |verts| ::
              r.halfEdges[h].to == Head(verts, h - |d.halfEdges|)
  {
    forall h | |d.halfEdges| <= h < |d.halfEdges| + |verts|
      ensures r.FromVertex(h) == Tail(verts, h - |d.halfEdges|)
      ensures r.KeyOf(h) == ForwardKey(verts, h - |d.halfEdges|)
      ensures r.halfEdges[h].to == Head(verts, h - |d.halfEdges|)
    {
      GrownNewTail(d, verts, r, h - |d.halfEdges|);
    }
  }

  lemma GrownFacesLaidOut(d: MeshData, verts: seq<Index32>, r: MeshData)
    requires Grown(d, verts, r) && r.LinksInRange()
    requires d.FacesLaidOut() && d.HalfEdgesInTheirFaces()
    ensures r.FacesLaidOut() && r.HalfEdgesInTheirFaces()
  {
    forall f | 0 <= f < |r.faces|
      ensures r.FaceLaidOut(f)
    {
      GrownFaceLaidOut(d, verts, r, f);
    }
    forall h | 0 <= h < |r.halfEdges|
      ensures var f := r.halfEdges[h].face; r.faces[f].edge <= h < r.faces[f].edge + r.faces[f].valence
    {
      GrownInItsFace(d, verts, r, h);
    }
  }

  /** An old face keeps its block; the new face owns the appended one. */
  lemma GrownFaceLaidOut(d: MeshData, verts: seq<Index32>, r: MeshData, f: nat)
    requires Grown(d, verts, r) && r.LinksInRange() && d.FacesLaidOut() && f < |r.faces|
    ensures r.FaceLaidOut(f)
  {
    assert f < |d.faces| ==> d.FaceLaidOut(f);
    if f < |d.faces| {
      GrownOldFaceLaidOut(d, verts, r, f);
    } else {
      GrownNewFaceLaidOut(d, verts, r);
    }
  }

  lemma GrownOldFaceLaidOut(d: MeshData, verts: seq<Index32>, r: MeshData, f: nat)
    requires Grown(d, verts, r) && r.LinksInRange() && f < |d.faces| && d.FaceLaidOut(f)
    ensures r.FaceLaidOut(f)
  {
    var b := d.faces[f].edge;
    assert r.faces[f] == d.faces[f];
    forall h | b <= h < b + d.faces[f].valence
      ensures r.halfEdges[h].face == f && r.halfEdges[h].next == d.halfEdges[h].next
              && r.halfEdges[h].prev == d.halfEdges[h].prev
    {
      assert r.halfEdges[h] == d.halfEdges[h].(twin := PatchedTwin(d, verts, h, |verts|));
    }
  }

  lemma GrownNewFaceLaidOut(d: MeshData, verts: seq<Index32>, r: MeshData)
    requires Grown(d, verts, r) && r.LinksInRange()
    ensures r.FaceLaidOut(|d.faces|)
  {
    var base, n := |d.halfEdges|, |verts|;
    assert r.faces[|d.faces|] == Face(base, n);
    forall h | base <= h < base + n
      ensures r.halfEdges[h].face == |d.faces| && r.halfEdges[h].next == base + Succ(h - base, n)
              && r.halfEdges[h].prev == base + Pred(h - base, n)
    {
      assert r.halfEdges[h] == FinalHalfEdge(d, verts, h - base);
    }
  }

  /** Every half-edge of the grown mesh lies in the block of its face. */
  lemma GrownInItsFace(d: MeshData, verts: seq<Index32>, r: MeshData, h: nat)
    requires Grown(d, verts, r) && r.LinksInRange() && d.HalfEdgesInTheirFaces() && h < |r.halfEdges|
    ensures var f := r.halfEdges[h].face; r.faces[f].edge <= h < r.faces[f].edge + r.faces[f].valence
  {
    var base, n := |d.halfEdges|, |verts|;
    if h < base {
      assert r.halfEdges[h] == d.halfEdges[h].(twin := PatchedTwin(d, verts, h, n));
      assert r.faces[d.halfEdges[h].face] == d.faces[d.halfEdges[h].face];
    } else {
      assert r.halfEdges[h] == FinalHalfEdge(d, verts, h - base);
      assert r.faces[|d.faces|] == Face(base, n);
    }
  }

  /** The twin conditions at one half-edge. */
  ghost predicate TwinPairedAt(r: MeshData, h: nat)
    requires r.LinksInRange() && h < |r.halfEdges|
  {
    r.halfEdges[h].twin != INVALID_INDEX ==>
      && r.halfEdges[h].twin != h
      && r.halfEdges[r.halfEdges[h].twin].twin == h
      && r.halfEdges[r.halfEdges[h].twin].edge == r.halfEdges[h].edge
      && r.halfEdges[r.halfEdges[h].twin].to == r.FromVertex(h)
  }

  /** An existing half-edge with an existing twin keeps both links. */
  lemma GrownKeptTwin(d: MeshData, verts: seq<Index32>, r: MeshData, h: nat)
    requires Grown(d, verts, r) && r.LinksInRange() && d.TwinsPaired() && h < |d.halfEdges|
    requires PatchedTwin(d, verts, h, |verts|) == d.halfEdges[h].twin != INVALID_INDEX
    ensures TwinPairedAt(r, h)
  {
    var n, t := |verts|, d.halfEdges[h].twin;
    GrownTails(d, verts, r);
    PatchedTwinSpec(d, verts, t, n);
  }

  /** A side that found its opposite half-edge is paired with it both ways. */
  lemma GrownPatchedTwin(d: MeshData, verts: seq<Index32>, r: MeshData, j: nat)
    requires Grown(d, verts, r) && r.LinksInRange() && j < |verts| && TwinFound(d, verts, j)
    ensures TwinOf(d, verts, j) < |d.halfEdges|
    ensures TwinPairedAt(r, TwinOf(d, verts, j)) && TwinPairedAt(r, |d.halfEdges| + j)
  {
    GrownPatchedPair(d, verts, r, j);
    var t, h := TwinOf(d, verts, j), |d.halfEdges| + j;
    assert r.halfEdges[h].twin == t && r.halfEdges[t].twin == h;
    GrownTails(d, verts, r);
  }

  /** The links between a side that found its opposite and that opposite. */
  lemma GrownPatchedPair(d: MeshData, verts: seq<Index32>, r: MeshData, j: nat)
    requires Grown(d, verts, r) && r.LinksInRange() && j < |verts| && TwinFound(d, verts, j)
    ensures var t, h := TwinOf(d, verts, j), |d.halfEdges| + j;
      && t < |d.halfEdges| && h < |r.halfEdges|
      && r.halfEdges[h].twin == t && r.halfEdges[t].twin == h && h != t
      && r.halfEdges[t].edge == r.halfEdges[h].edge
  {
    var t := TwinOf(d, verts, j);
    PatchedTwinSpec(d, verts, t, |verts|);
    assert r.halfEdges[|d.halfEdges| + j] == FinalHalfEdge(d, verts, j);
    assert r.halfEdges[t] == d.halfEdges[t].(twin := PatchedTwin(d, verts, t, |verts|));
  }

  lemma GrownOldTwinAt(d: MeshData, verts: seq<Index32>, r: MeshData, h: nat)
    requires Grown(d, verts, r) && r.LinksInRange() && d.TwinsPaired() && h < |d.halfEdges|
    ensures TwinPairedAt(r, h)
  {
    var base, n := |d.halfEdges|, |verts|;
    PatchedTwinSpec(d, verts, h, n);
    var p := PatchedTwin(d, verts, h, n);
    assert r.halfEdges[h].twin == p;
    if p != d.halfEdges[h].twin {
      GrownPatchedTwin(d, verts, r, p - base);
    } else if p != INVALID_INDEX {
      GrownKeptTwin(d, verts, r, h);
    }
  }

  lemma GrownNewTwinAt(d: MeshData, verts: seq<Index32>, r: MeshData, h: nat)
    requires Grown(d, verts, r) && r.LinksInRange() && |d.halfEdges| <= h < |r.halfEdges|
    ensures TwinPairedAt(r, h)
  {
    var j := h - |d.halfEdges|;
    assert r.halfEdges[h] == FinalHalfEdge(d, verts, j);
    if TwinFound(d, verts, j) {
      GrownPatchedTwin(d, verts, r, j);
    }
  }

  lemma GrownTwinsPaired(d: MeshData, verts: seq<Index32>, r: MeshData)
    requires Grown(d, verts, r) && r.LinksInRange() && d.TwinsPaired()
    ensures r.TwinsPaired()
  {
    forall h | 0 <= h < |r.halfEdges| && r.halfEdges[h].twin != INVALID_INDEX
      ensures r.halfEdges[h].twin != h
      ensures r.halfEdges[r.halfEdges[h].twin].twin == h
      ensures r.halfEdges[r.halfEdges[h].twin].edge == r.halfEdges[h].edge
      ensures r.halfEdges[r.halfEdges[h].twin].to == r.FromVertex(h)
    {
      if h < |d.halfEdges| {
        GrownOldTwinAt(d, verts, r, h);
      } else {
        GrownNewTwinAt(d, verts, r, h);
      }
    }
  }

  lemma GrownEdgeInUseAt(d: MeshData, verts: seq<Index32>, r: MeshData, e: nat)
    requires Grown(d, verts, r) && d.EdgesUsed() && e < |r.edges|
    ensures r.EdgeInUse(e)
  {
    if e < |d.edges| {
      assert d.EdgeInUse(e);
      var h :| 0 <= h < |d.halfEdges| && d.halfEdges[h].edge == e;
      assert r.halfEdges[h].edge == e;
    } else {
      GrownFreshEdgeInUse(d, verts, r, e);
    }
  }

  /** A fresh edge is the edge of the side that created it. */
  lemma GrownFreshEdgeInUse(d: MeshData, verts: seq<Index32>, r: MeshData, e: nat)
    requires Grown(d, verts, r) && |d.edges| <= e < |r.edges|
    ensures r.EdgeInUse(e)
  {
    var base, n := |d.halfEdges|, |verts|;
    var j := NewEdgeOwner(d, verts, e - |d.edges|, n);
    var h := base + j;
    assert r.halfEdges[h] == FinalHalfEdge(d, verts, h - base);
  }

  lemma GrownEdgesUsed(d: MeshData, verts: seq<Index32>, r: MeshData)
    requires Grown(d, verts, r) && d.EdgesUsed()
    ensures r.EdgesUsed()
  {
    forall e | 0 <= e < |r.edges|
      ensures r.EdgeInUse(e)
    {
      GrownEdgeInUseAt(d, verts, r, e);
    }
  }

  /** An existing half-edge shares its edge only with its twin, old or new. */
  lemma GrownSharedOldNew(d: MeshData, verts: seq<Index32>, r: MeshData, h: nat, h2: nat)
    requires Grown(d, verts, r) && r.LinksInRange() && d.EdgesShared()
    requires h < |d.halfEdges| <= h2 < |r.halfEdges|
    requires r.halfEdges[h].edge == r.halfEdges[h2].edge
    ensures r.halfEdges[h].twin == h2 && r.halfEdges[h2].twin == h
  {
    var base, n := |d.halfEdges|, |verts|;
    var j := h2 - base;
    assert r.halfEdges[h2] == FinalHalfEdge(d, verts, j);
    assert d.LinksOk(d.halfEdges[h]);
    if TwinFound(d, verts, j) {
      var t := TwinOf(d, verts, j);
      PatchedTwinSpec(d, verts, t, n);
    }
  }

  lemma GrownSharedOldOld(d: MeshData, verts: seq<Index32>, r: MeshData, h1: nat, h2: nat)
    requires Grown(d, verts, r) && r.LinksInRange() && d.EdgesShared()
    requires h1 < |d.halfEdges| && h2 < |d.halfEdges| && h1 != h2
    requires r.halfEdges[h1].edge == r.halfEdges[h2].edge
    ensures r.halfEdges[h1].twin == h2
  {
    PatchedTwinSpec(d, verts, h1, |verts|);
  }

  lemma GrownSharedNewNew(d: MeshData, verts: seq<Index32>, r: MeshData, h1: nat, h2: nat)
    requires Grown(d, verts, r) && r.LinksInRange() && d.EdgesShared()
    requires |d.halfEdges| <= h1 < h2 < |r.halfEdges|
    ensures r.halfEdges[h1].edge != r.halfEdges[h2].edge
  {
    var base := |d.halfEdges|;
    var i, j := h1 - base, h2 - base;
    assert r.halfEdges[h1] == FinalHalfEdge(d, verts, i);
    assert r.halfEdges[h2] == FinalHalfEdge(d, verts, j);
    if TwinFound(d, verts, i) {
      assert d.LinksOk(d.halfEdges[TwinOf(d, verts, i)]);
    } else {
      NewEdgesIncrease(d, verts, i, j);
    }
    if TwinFound(d, verts, j) {
      assert d.LinksOk(d.halfEdges[TwinOf(d, verts, j)]);
    }
  }

  /** Two different half-edges on one edge of the assembled mesh are twins:
      when the first is an existing one ... */
  lemma GrownSharedFromOld(d: MeshData, verts: seq<Index32>, r: MeshData, h1: nat, h2: nat)
    requires Grown(d, verts, r) && r.LinksInRange() && d.EdgesShared()
    requires h1 < |d.halfEdges| && h2 < |r.halfEdges| && h1 != h2
    requires r.halfEdges[h1].edge == r.halfEdges[h2].edge
    ensures r.halfEdges[h1].twin == h2
  {
    if h2 < |d.halfEdges| {
      GrownSharedOldOld(d, verts, r, h1, h2);
    } else {
      GrownSharedOldNew(d, verts, r, h1, h2);
    }
  }

  /** ... and when both are new ones, which never share an edge. */
  lemma GrownSharedNewPair(d: MeshData, verts: seq<Index32>, r: MeshData, h1: nat, h2: nat)
    requires Grown(d, verts, r) && r.LinksInRange() && d.EdgesShared()
    requires |d.halfEdges| <= h1 < |r.halfEdges| && |d.halfEdges| <= h2 < |r.halfEdges| && h1 != h2
    ensures r.halfEdges[h1].edge != r.halfEdges[h2].edge
  {
    if h1 < h2 {
      GrownSharedNewNew(d, verts, r, h1, h2);
    } else {
      GrownSharedNewNew(d, verts, r, h2, h1);
    }
  }

  lemma GrownEdgesShared(d: MeshData, verts: seq<Index32>, r: MeshData)
    requires Grown(d, verts, r) && r.LinksInRange() && d.EdgesShared()
    ensures r.EdgesShared()
  {
    forall h1, h2 | 0 <= h1 < |r.halfEdges| && 0 <= h2 < |r.halfEdges| && h1 != h2
                    && r.halfEdges[h1].edge == r.halfEdges[h2].edge
      ensures r.halfEdges[h1].twin == h2
    {
      if h1 < |d.halfEdges| {
        GrownSharedFromOld(d, verts, r, h1, h2);
      } else if h2 < |d.halfEdges| {
        GrownSharedOldNew(d, verts, r, h2, h1);
      } else {
        GrownSharedNewPair(d, verts, r, h1, h2);
      }
    }
  }

  /** An entry of the old map survives and still names a half-edge running
      along its key ... */
  lemma GrownOldEntry(d: MeshData, verts: seq<Index32>, r: MeshData, k: DirectedKey)
    requires Grown(d, verts, r) && r.LinksInRange() && d.MapSound() && k in d.edgeMap
    ensures k in r.edgeMap && r.edgeMap[k] == d.edgeMap[k] < |d.halfEdges|
    ensures r.KeyOf(r.edgeMap[k]) == k
  {
    MapAfterKeeps(d, verts, |verts|);
    GrownOldTail(d, verts, r, d.edgeMap[k]);
  }

  /** ... and so does the entry of each side registered under its own key. */
  lemma GrownNewEntry(d: MeshData, verts: seq<Index32>, r: MeshData, j: nat)
    requires Grown(d, verts, r) && r.LinksInRange() && j < |verts| && !TwinFound(d, verts, j)
    ensures ForwardKey(verts, j) in r.edgeMap && r.edgeMap[ForwardKey(verts, j)] == |d.halfEdges| + j
    ensures r.KeyOf(|d.halfEdges| + j) == ForwardKey(verts, j)
  {
    MapAfterRegisters(d, verts, |verts|);
    GrownNewTail(d, verts, r, j);
  }

  lemma GrownMapSound(d: MeshData, verts: seq<Index32>, r: MeshData)
    requires Grown(d, verts, r) && r.LinksInRange() && d.MapSound()
    ensures r.MapSound()
  {
    forall k | k in r.edgeMap
      ensures r.edgeMap[k] < |r.halfEdges| && r.KeyOf(r.edgeMap[k]) == k
    {
      GrownEntry(d, verts, r, k);
    }
  }

  /** One entry of the grown map: an old entry or the forward key of a side
      that found no twin. */
  lemma GrownEntry(d: MeshData, verts: seq<Index32>, r: MeshData, k: DirectedKey)
    requires Grown(d, verts, r) && r.LinksInRange() && d.MapSound() && k in r.edgeMap
    ensures r.edgeMap[k] < |r.halfEdges| && r.KeyOf(r.edgeMap[k]) == k
  {
    if k in d.edgeMap {
      GrownOldEntry(d, verts, r, k);
    } else {
      GrownFreshKey(d, verts, r, k);
    }
  }

  /** A key the old map lacks is the forward key of a side that found no
      twin, and names that side's new half-edge. */
  lemma GrownFreshKey(d: MeshData, verts: seq<Index32>, r: MeshData, k: DirectedKey)
    requires Grown(d, verts, r) && r.LinksInRange() && k in r.edgeMap && k !in d.edgeMap
    ensures r.edgeMap[k] < |r.halfEdges| && r.KeyOf(r.edgeMap[k]) == k
  {
    var j := MapAfterSide(d, verts, |verts|, k);
    GrownNewEntry(d, verts, r, j);
  }

  lemma GrownCoveredAt(d: MeshData, verts: seq<Index32>, r: MeshData, h: nat)
    requires Grown(d, verts, r) && r.LinksInRange() && d.MapSound() && d.MapCovers() && h < |r.halfEdges|
    ensures r.Registered(h) || (r.halfEdges[h].twin != INVALID_INDEX && r.Registered(r.halfEdges[h].twin))
  {
    var base, n := |d.halfEdges|, |verts|;
    if h < base {
      PatchedTwinSpec(d, verts, h, n);
      GrownOldTail(d, verts, r, h);
      if d.Registered(h) {
        GrownOldEntry(d, verts, r, d.KeyOf(h));
      } else {
        var t := d.halfEdges[h].twin;
        GrownOldTail(d, verts, r, t);
        GrownOldEntry(d, verts, r, d.KeyOf(t));
      }
    } else {
      var j := h - base;
      assert r.halfEdges[h] == FinalHalfEdge(d, verts, j);
      if TwinFound(d, verts, j) {
        var t := TwinOf(d, verts, j);
        GrownOldTail(d, verts, r, t);
        GrownOldEntry(d, verts, r, d.KeyOf(t));
      } else {
        GrownNewEntry(d, verts, r, j);
      }
    }
  }

  lemma GrownMapCovers(d: MeshData, verts: seq<Index32>, r: MeshData)
    requires Grown(d, verts, r) && r.LinksInRange() && d.MapSound() && d.MapCovers()
    ensures r.MapCovers()
  {
    forall h | 0 <= h < |r.halfEdges|
      ensures r.Registered(h) || (r.halfEdges[h].twin != INVALID_INDEX && r.Registered(r.halfEdges[h].twin))
    {
      GrownCoveredAt(d, verts, r, h);
    }
  }

  /** No existing half-edge runs along a side of an accepted polygon. */
  lemma OldKeyIsNoSide(d: MeshData, verts: seq<Index32>, h: nat, j: nat)
    requires d.LinksInRange() && d.TwinsPaired() && d.MapCovers() && SideFacts(d, verts)
    requires h < |d.halfEdges| && j < |verts|
    ensures d.KeyOf(h) != ForwardKey(verts, j)
  {
    if d.KeyOf(h) == ForwardKey(verts, j) && !d.Registered(h) {
      var t := d.halfEdges[h].twin;
      d.EndpointsAreVertices(h);
      d.EndpointsAreVertices(t);
      DirectedEdgeKeyInjective(d.FromVertex(h), d.halfEdges[h].to, Tail(verts, j), Head(verts, j));
      assert d.KeyOf(t) == ReverseKey(verts, j);
      assert TwinFound(d, verts, j);
    }
  }

  /** Two different half-edges of the assembled mesh carry different keys,
      given their keys in terms of the old mesh and the polygon. */
  lemma KeysDifferAt(d: MeshData, verts: seq<Index32>, r: MeshData, h1: nat, h2: nat)
    requires d.LinksInRange() && r.LinksInRange() && SideFacts(d, verts)
    requires d.TwinsPaired() && d.MapCovers() && d.DirectedPairsUnique()
    requires h1 < |r.halfEdges| && h2 < |r.halfEdges| && h1 != h2
    requires |r.halfEdges| == |d.halfEdges| + |verts|
    requires h1 < |d.halfEdges| ==> r.KeyOf(h1) == d.KeyOf(h1)
    requires h1 >= |d.halfEdges| ==> r.KeyOf(h1) == ForwardKey(verts, h1 - |d.halfEdges|)
    requires h2 < |d.halfEdges| ==> r.KeyOf(h2) == d.KeyOf(h2)
    requires h2 >= |d.halfEdges| ==> r.KeyOf(h2) == ForwardKey(verts, h2 - |d.halfEdges|)
    ensures r.KeyOf(h1) != r.KeyOf(h2)
  {
    var base := |d.halfEdges|;
    if h1 < base && h2 >= base {
      OldKeyIsNoSide(d, verts, h1, h2 - base);
    } else if h2 < base && h1 >= base {
      OldKeyIsNoSide(d, verts, h2, h1 - base);
    } else if h1 >= base && h2 >= base {
      SideKeysDistinct(verts, h1 - base, h2 - base);
    }
  }

  /** No half-edge of the assembled mesh is a loop. */
  lemma NoLoopAt(d: MeshData, verts: seq<Index32>, r: MeshData, h: nat)
    requires d.LinksInRange() && r.LinksInRange() && d.NoLoops() && Creatable(d, verts)
    requires h < |r.halfEdges| == |d.halfEdges| + |verts|
    requires h < |d.halfEdges| ==> r.FromVertex(h) == d.FromVertex(h) && r.halfEdges[h].to == d.halfEdges[h].to
    requires h >= |d.halfEdges| ==>
      r.FromVertex(h) == Tail(verts, h - |d.halfEdges|) && r.halfEdges[h].to == Head(verts, h - |d.halfEdges|)
    ensures r.FromVertex(h) != r.halfEdges[h].to
  {
    if h >= |d.halfEdges| {
      SideKeysDistinct(verts, h - |d.halfEdges|, h - |d.halfEdges|);
    }
  }

  lemma GrownPairsUnique(d: MeshData, verts: seq<Index32>, r: MeshData)
    requires Grown(d, verts, r) && r.LinksInRange()
    requires d.TwinsPaired() && d.MapCovers() && d.DirectedPairsUnique() && d.NoLoops()
    ensures r.DirectedPairsUnique() && r.NoLoops()
  {
    GrownTails(d, verts, r);
    forall h1, h2 | 0 <= h1 < |r.halfEdges| && 0 <= h2 < |r.halfEdges| && h1 != h2
      ensures r.KeyOf(h1) != r.KeyOf(h2)
    {
      KeysDifferAt(d, verts, r, h1, h2);
    }
    forall h | 0 <= h < |r.halfEdges|
      ensures r.FromVertex(h) != r.halfEdges[h].to
    {
      if h >= |d.halfEdges| {
        assert r.halfEdges[h] == FinalHalfEdge(d, verts, h - |d.halfEdges|);
      }
      NoLoopAt(d, verts, r, h);
    }
  }

  /** An existing half-edge running against side `j` is the one side `j`
      pairs with: it is registered, since its twin would run along the side
      and no side's own key is registered. */
  lemma SideFindsOpposite(d: MeshData, verts: seq<Index32>, h: nat, j: nat)
    requires d.LinksInRange() && d.TwinsPaired() && d.MapCovers() && SidesSeparate(d, verts)
    requires h < |d.halfEdges| && j < |verts|
    requires d.FromVertex(h) == Head(verts, j) && d.halfEdges[h].to == Tail(verts, j)
    ensures TwinFound(d, verts, j) && TwinOf(d, verts, j) == h
  {
    var t := d.halfEdges[h].twin;
    d.TwinKey(h);
    assert ForwardKey(verts, j) !in d.edgeMap;
    assert t != INVALID_INDEX ==> d.KeyOf(t) == ForwardKey(verts, j);
    assert d.Registered(h) || (t != INVALID_INDEX && d.Registered(t));
    assert d.KeyOf(h) == ReverseKey(verts, j);
  }

  /** The endpoints and twin of half-edge `h` of the assembled mesh, in
      terms of the old mesh and the polygon. */
  ghost predicate SeenAs(d: MeshData, verts: seq<Index32>, r: MeshData, h: nat)
    requires d.LinksInRange() && r.LinksInRange() && Creatable(d, verts)
    requires h < |r.halfEdges| == |d.halfEdges| + |verts|
  {
    if h < |d.halfEdges| then
      && r.FromVertex(h) == d.FromVertex(h) && r.halfEdges[h].to == d.halfEdges[h].to
      && r.halfEdges[h].twin == PatchedTwin(d, verts, h, |verts|)
    else
      && r.FromVertex(h) == Tail(verts, h - |d.halfEdges|)
      && r.halfEdges[h].to == Head(verts, h - |d.halfEdges|)
      && r.halfEdges[h].twin == TwinOf(d, verts, h - |d.halfEdges|)
  }

  /** Two opposite half-edges of the assembled mesh are twins. */
  lemma OppositesAt(d: MeshData, verts: seq<Index32>, r: MeshData, h1: nat, h2: nat)
    requires d.LinksInRange() && r.LinksInRange() && SideFacts(d, verts)
    requires d.TwinsPaired() && d.MapCovers() && d.OppositesPaired()
    requires h1 < |r.halfEdges| && h2 < |r.halfEdges| && |r.halfEdges| == |d.halfEdges| + |verts|
    requires SeenAs(d, verts, r, h1) && SeenAs(d, verts, r, h2)
    requires r.FromVertex(h1) == r.halfEdges[h2].to && r.halfEdges[h1].to == r.FromVertex(h2)
    ensures r.halfEdges[h1].twin == h2
  {
    var base, n := |d.halfEdges|, |verts|;
    if h1 < base && h2 < base {
      PatchedTwinSpec(d, verts, h1, n);
    } else if h1 < base {
      SideFindsOpposite(d, verts, h1, h2 - base);
      PatchedTwinSpec(d, verts, h1, n);
    } else if h2 < base {
      SideFindsOpposite(d, verts, h2, h1 - base);
    } else {
      SideKeysDistinct(verts, h2 - base, h1 - base);
    }
  }

  lemma GrownSeenAs(d: MeshData, verts: seq<Index32>, r: MeshData)
    requires Grown(d, verts, r) && r.LinksInRange()
    ensures forall h | 0 <= h < |r.halfEdges| :: SeenAs(d, verts, r, h)
  {
    GrownTails(d, verts, r);
    forall h | |d.halfEdges| <= h < |r.halfEdges|
      ensures r.halfEdges[h].twin == TwinOf(d, verts, h - |d.halfEdges|)
    {
      assert r.halfEdges[h] == FinalHalfEdge(d, verts, h - |d.halfEdges|);
    }
  }

  lemma GrownOppositesPaired(d: MeshData, verts: seq<Index32>, r: MeshData)
    requires Grown(d, verts, r) && r.LinksInRange()
    requires d.TwinsPaired() && d.MapCovers() && d.OppositesPaired()
    ensures r.OppositesPaired()
  {
    GrownSeenAs(d, verts, r);
    forall h1, h2 | 0 <= h1 < |r.halfEdges| && 0 <= h2 < |r.halfEdges|
                    && r.FromVertex(h1) == r.halfEdges[h2].to && r.halfEdges[h1].to == r.FromVertex(h2)
      ensures r.halfEdges[h1].twin == h2
    {
      OppositesAt(d, verts, r, h1, h2);
    }
  }

  /** A set outgoing pointer still names a half-edge leaving its vertex ... */
  lemma OutgoingStartsAt(d: MeshData, verts: seq<Index32>, r: MeshData, v: nat)
    requires d.LinksInRange() && r.LinksInRange() && d.OutgoingSound()
    requires |r.halfEdges| == |d.halfEdges| + |verts| <= INVALID_INDEX
    requires v < |d.vertices| == |r.vertices|
    requires r.vertices[v].outgoing == OutgoingAfter(d, verts, v, |verts|) != INVALID_INDEX
    requires forall h | 0 <= h < |d.halfEdges| :: r.FromVertex(h) == d.FromVertex(h)
    requires forall h | |d.halfEdges| <= h < |r.halfEdges| :: r.FromVertex(h) == Tail(verts, h - |d.halfEdges|)
    ensures r.FromVertex(r.vertices[v].outgoing) == v
  {
    OutgoingAfterSpec(d, verts, v, |verts|);
  }

  /** ... and the tail of every half-edge has its pointer set. */
  lemma OutgoingSetAt(d: MeshData, verts: seq<Index32>, r: MeshData, h: nat)
    requires d.LinksInRange() && r.LinksInRange() && d.OutgoingSound()
    requires |r.halfEdges| == |d.halfEdges| + |verts| <= INVALID_INDEX && h < |r.halfEdges|
    requires |r.vertices| == |d.vertices|
    requires forall v | 0 <= v < |d.vertices| :: r.vertices[v].outgoing == OutgoingAfter(d, verts, v, |verts|)
    requires h < |d.halfEdges| ==> r.FromVertex(h) == d.FromVertex(h)
    requires h >= |d.halfEdges| ==> r.FromVertex(h) == Tail(verts, h - |d.halfEdges|) < |d.vertices|
    ensures r.vertices[r.FromVertex(h)].outgoing != INVALID_INDEX
  {
    if h < |d.halfEdges| {
      d.EndpointsAreVertices(h);
      OutgoingAfterSpec(d, verts, d.FromVertex(h), |verts|);
    } else {
      OutgoingAfterSpec(d, verts, Tail(verts, h - |d.halfEdges|), |verts|);
    }
  }

  lemma GrownOutgoingSound(d: MeshData, verts: seq<Index32>, r: MeshData)
    requires Grown(d, verts, r) && r.LinksInRange() && d.OutgoingSound()
    ensures r.OutgoingSound()
  {
    GrownTails(d, verts, r);
    forall v | 0 <= v < |r.vertices| && r.vertices[v].outgoing != INVALID_INDEX
      ensures r.FromVertex(r.vertices[v].outgoing) == v
    {
      OutgoingStartsAt(d, verts, r, v);
    }
    forall h | 0 <= h < |r.halfEdges|
      ensures r.vertices[r.FromVertex(h)].outgoing != INVALID_INDEX
    {
      OutgoingSetAt(d, verts, r, h);
    }
  }

  /** An accepted face leaves a well-formed mesh well formed. */
  lemma AddFacePreservesWellFormed(d: MeshData, verts: seq<Index32>)
    requires d.WellFormed() && Fits(d, verts)
    ensures AddFace(d, verts).Accepted? ==> AddFace(d, verts).mesh.WellFormed()
  {
    if AddFace(d, verts).Accepted? {
      CheckFaceAccepts(d, verts);
      InsertableSideFacts(d, verts);
      AssembledShape(d, verts);
      var r := Assembled(d, verts);
      GrownLinksInRange(d, verts, r);
      GrownFacesLaidOut(d, verts, r);
      GrownTwinsPaired(d, verts, r);
      GrownEdgesUsed(d, verts, r);
      GrownEdgesShared(d, verts, r);
      GrownMapSound(d, verts, r);
      GrownMapCovers(d, verts, r);
      GrownPairsUnique(d, verts, r);
      GrownOppositesPaired(d, verts, r);
      GrownOutgoingSound(d, verts, r);
    }
  }

  // ---------------------------------------------------------------------
  // The accepted face in the terms of the source's promises

  /** The new half-edges of the assembled mesh, one per side: half-edge
      `j` runs from `verts[j]` to `verts[(j + 1) % n]`, its neighbours are
      the half-edges of sides `j + 1` and `j - 1` (mod n), and it belongs to
      the new face. */
  lemma GrownLayout(d: MeshData, verts: seq<Index32>, r: MeshData)
    requires Grown(d, verts, r) && r.LinksInRange()
    ensures forall h | |d.halfEdges| <= h < |r.halfEdges| ::
              && r.halfEdges[h].to == verts[(h - |d.halfEdges| + 1) % |verts|]
              && r.halfEdges[h].next == |d.halfEdges| + (h - |d.halfEdges| + 1) % |verts|
              && r.halfEdges[h].prev == |d.halfEdges| + (h - |d.halfEdges| + |verts| - 1) % |verts|
              && r.halfEdges[h].face == |d.faces|
              && r.FromVertex(h) == verts[h - |d.halfEdges|]
  {
    GrownNewTails(d, verts, r);
    forall h | |d.halfEdges| <= h < |r.halfEdges|
      ensures r.halfEdges[h] == FinalHalfEdge(d, verts, h - |d.halfEdges|)
      ensures Succ(h - |d.halfEdges|, |verts|) == (h - |d.halfEdges| + 1) % |verts|
      ensures Pred(h - |d.halfEdges|, |verts|) == (h - |d.halfEdges| + |verts| - 1) % |verts|
    {
      SuccPredModulo(h - |d.halfEdges|, |verts|);
    }
  }

  /** An accepted n-gon leaves the mesh well formed, appends `n` half-edges
      laid out as above and one face of valence `n`, and leaves every
      existing half-edge as it was except for its twin. */
  lemma AddFaceLayout(d: MeshData, verts: seq<Index32>)
    requires d.WellFormed() && Fits(d, verts) && CheckFace(d, verts).None?
    ensures AddFace(d, verts).Accepted?
    ensures var r, base, n := AddFace(d, verts).mesh, |d.halfEdges|, |verts|;
      && |r.halfEdges| == base + n && |r.vertices| == |d.vertices|
      && r.faces == d.faces + [Face(base, n)]
      && (forall h | 0 <= h < base :: r.halfEdges[h].(twin := d.halfEdges[h].twin) == d.halfEdges[h])
      && (forall h | base <= h < base + n ::
            && r.halfEdges[h].to == verts[(h - base + 1) % n]
            && r.halfEdges[h].next == base + (h - base + 1) % n
            && r.halfEdges[h].prev == base + (h - base + n - 1) % n
            && r.halfEdges[h].face == |d.faces|
            && r.FromVertex(h) == verts[h - base])
  {
    CheckFaceAccepts(d, verts);
    InsertableSideFacts(d, verts);
    AssembledShape(d, verts);
    var r := Assembled(d, verts);
    assert AddFace(d, verts).mesh == r;
    GrownLinksInRange(d, verts, r);
    GrownLayout(d, verts, r);
    GrownKeepsOld(d, verts, r);
  }

  lemma GrownKeepsOld(d: MeshData, verts: seq<Index32>, r: MeshData)
    requires ShapedAs(d, verts, r)
    ensures forall h | 0 <= h < |d.halfEdges| :: r.halfEdges[h].(twin := d.halfEdges[h].twin) == d.halfEdges[h]
  {
  }

  /** What side `j` of the assembled mesh is paired with: a side whose
      reverse half-edge exists becomes its twin on the existing edge ... */
  lemma GrownPairedSide(d: MeshData, verts: seq<Index32>, r: MeshData, j: nat)
    requires Grown(d, verts, r) && j < |verts| && TwinFound(d, verts, j)
    ensures TwinOf(d, verts, j) < |d.halfEdges|
    ensures d.FromVertex(TwinOf(d, verts, j)) == Head(verts, j)
    ensures d.halfEdges[TwinOf(d, verts, j)].to == Tail(verts, j)
    ensures r.halfEdges[|d.halfEdges| + j].twin == TwinOf(d, verts, j)
    ensures r.halfEdges[TwinOf(d, verts, j)].twin == |d.halfEdges| + j
    ensures r.halfEdges[|d.halfEdges| + j].edge == d.halfEdges[TwinOf(d, verts, j)].edge
  {
    assert r.halfEdges[|d.halfEdges| + j] == FinalHalfEdge(d, verts, j);
    PatchedTwinSpec(d, verts, TwinOf(d, verts, j), |verts|);
  }

  /** ... and a side without one gets a new edge. */
  lemma GrownFreshSide(d: MeshData, verts: seq<Index32>, r: MeshData, j: nat)
    requires Grown(d, verts, r) && j < |verts| && !TwinFound(d, verts, j)
    ensures r.halfEdges[|d.halfEdges| + j].twin == INVALID_INDEX
    ensures |d.edges| <= r.halfEdges[|d.halfEdges| + j].edge < |r.edges|
  {
    assert r.halfEdges[|d.halfEdges| + j] == FinalHalfEdge(d, verts, j);
    NewEdgesIncrease(d, verts, j, |verts|);
  }

  lemma GrownEdgeSides(d: MeshData, verts: seq<Index32>, r: MeshData)
    requires Grown(d, verts, r)
    ensures forall j | 0 <= j < |verts| && TwinFound(d, verts, j) ::
              && TwinOf(d, verts, j) < |d.halfEdges|
              && d.FromVertex(TwinOf(d, verts, j)) == Head(verts, j)
              && d.halfEdges[TwinOf(d, verts, j)].to == Tail(verts, j)
              && r.halfEdges[|d.halfEdges| + j].twin == TwinOf(d, verts, j)
              && r.halfEdges[TwinOf(d, verts, j)].twin == |d.halfEdges| + j
              && r.halfEdges[|d.halfEdges| + j].edge == d.halfEdges[TwinOf(d, verts, j)].edge
    ensures forall j | 0 <= j < |verts| && !TwinFound(d, verts, j) ::
              && r.halfEdges[|d.halfEdges| + j].twin == INVALID_INDEX
              && |d.edges| <= r.halfEdges[|d.halfEdges| + j].edge < |r.edges|
  {
    forall j | 0 <= j < |verts| && TwinFound(d, verts, j)
      ensures && TwinOf(d, verts, j) < |d.halfEdges|
              && d.FromVertex(TwinOf(d, verts, j)) == Head(verts, j)
              && d.halfEdges[TwinOf(d, verts, j)].to == Tail(verts, j)
              && r.halfEdges[|d.halfEdges| + j].twin == TwinOf(d, verts, j)
              && r.halfEdges[TwinOf(d, verts, j)].twin == |d.halfEdges| + j
              && r.halfEdges[|d.halfEdges| + j].edge == d.halfEdges[TwinOf(d, verts, j)].edge
    {
      GrownPairedSide(d, verts, r, j);
    }
    forall j | 0 <= j < |verts| && !TwinFound(d, verts, j)
      ensures && r.halfEdges[|d.halfEdges| + j].twin == INVALID_INDEX
              && |d.edges| <= r.halfEdges[|d.halfEdges| + j].edge < |r.edges|
    {
      GrownFreshSide(d, verts, r, j);
    }
  }

  /** The edge count grows by the number of sides without a twin, and each
      side is paired as above. */
  lemma AddFaceEdges(d: MeshData, verts: seq<Index32>)
    requires d.WellFormed() && Fits(d, verts) && CheckFace(d, verts).None?
    ensures AddFace(d, verts).Accepted?
    ensures var r := AddFace(d, verts).mesh;
      && |r.edges| == |d.edges| + NewEdgesBefore(d, verts, |verts|)
      && (forall j | 0 <= j < |verts| && TwinFound(d, verts, j) ::
            && TwinOf(d, verts, j) < |d.halfEdges|
            && d.FromVertex(TwinOf(d, verts, j)) == Head(verts, j)
            && d.halfEdges[TwinOf(d, verts, j)].to == Tail(verts, j)
            && r.halfEdges[|d.halfEdges| + j].twin == TwinOf(d, verts, j)
            && r.halfEdges[TwinOf(d, verts, j)].twin == |d.halfEdges| + j
            && r.halfEdges[|d.halfEdges| + j].edge == d.halfEdges[TwinOf(d, verts, j)].edge)
      && (forall j | 0 <= j < |verts| && !TwinFound(d, verts, j) ::
            && r.halfEdges[|d.halfEdges| + j].twin == INVALID_INDEX
            && |d.edges| <= r.halfEdges[|d.halfEdges| + j].edge < |r.edges|)
  {
    CheckFaceAccepts(d, verts);
    InsertableSideFacts(d, verts);
    AssembledShape(d, verts);
    var r := Assembled(d, verts);
    assert AddFace(d, verts).mesh == r;
    GrownEdgeSides(d, verts, r);
  }

  /** Side `j` finds its twin exactly when the mesh already holds a
      half-edge running the other way along it. */
  lemma TwinFoundMeaning(d: MeshData, verts: seq<Index32>, j: nat)
    requires d.WellFormed() && CheckFace(d, verts).None? && j < |verts|
    ensures TwinFound(d, verts, j) <==>
      exists h | 0 <= h < |d.halfEdges| :: d.FromVertex(h) == Head(verts, j) && d.halfEdges[h].to == Tail(verts, j)
  {
    CheckFaceAccepts(d, verts);
    InsertableSidesSeparate(d, verts);
    if TwinFound(d, verts, j) {
      TwinOfFacts(d, verts, j);
    }
    forall h | 0 <= h < |d.halfEdges| && d.FromVertex(h) == Head(verts, j) && d.halfEdges[h].to == Tail(verts, j)
      ensures TwinFound(d, verts, j)
    {
      SideFindsOpposite(d, verts, h, j);
    }
  }

  /** The lookup of a half-edge's own endpoints finds it. */
  lemma FindsHalfEdgeAt(r: MeshData, h: nat, a: Index32, b: Index32)
    requires r.LinksInRange() && r.TwinsPaired() && r.MapSound() && r.MapCovers() && r.DirectedPairsUnique()
    requires h < |r.halfEdges| && r.FromVertex(h) == a && r.halfEdges[h].to == b
    ensures r.FindHalfEdge(a, b) == h
  {
    r.FindHalfEdgeFinds(h);
  }

  /** The half-edge of side `j` of the grown mesh runs from `Tail(j)` to `Head(j)`. */
  lemma GrownSideEnds(d: MeshData, verts: seq<Index32>, r: MeshData)
    requires Grown(d, verts, r) && r.LinksInRange()
    ensures forall j | 0 <= j < |verts| ::
      r.FromVertex(|d.halfEdges| + j) == Tail(verts, j) && r.halfEdges[|d.halfEdges| + j].to == Head(verts, j)
  {
    forall j | 0 <= j < |verts|
      ensures r.FromVertex(|d.halfEdges| + j) == Tail(verts, j) && r.halfEdges[|d.halfEdges| + j].to == Head(verts, j)
    {
      GrownNewTail(d, verts, r, j);
    }
  }

  /** After an accepted face, the half-edge of side `j` runs from `Tail(j)` to `Head(j)`. */
  lemma AddFaceSideEnds(d: MeshData, verts: seq<Index32>)
    requires d.WellFormed() && Fits(d, verts) && CheckFace(d, verts).None?
    ensures AddFace(d, verts).Accepted?
    ensures var r := AddFace(d, verts).mesh;
      && r.LinksInRange() && |d.halfEdges| + |verts| <= |r.halfEdges|
      && forall j | 0 <= j < |verts| ::
           r.FromVertex(|d.halfEdges| + j) == Tail(verts, j) && r.halfEdges[|d.halfEdges| + j].to == Head(verts, j)
  {
    CheckFaceAccepts(d, verts);
    InsertableSideFacts(d, verts);
    AssembledShape(d, verts);
    var r := Assembled(d, verts);
    assert AddFace(d, verts).mesh == r;
    GrownLinksInRange(d, verts, r);
    GrownSideEnds(d, verts, r);
  }
}
