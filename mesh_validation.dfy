// Mesh::validate: a read-only sweep over the half-edges, the face loops
// and the edges that reports whether any link is broken. The checks are
// stated as predicates on the mesh state; the sweep is a method proved to
// compute them; and every well-formed mesh passes them.

module MeshValidation {
  import opened MeshTypes
  import opened HalfEdgeTopology
  import opened MeshQueries

  // ---------------------------------------------------------------------
  // What each check accepts

  /** The half-edge sweep finds nothing wrong with half-edge `i`: its head
      exists; a set twin exists, points back and (when the edge is set)
      shares the edge; set `next`, `prev`, `edge` and `face` links exist; a
      half-edge with a face has both `next` and `prev`; and `next`/`prev`
      that exist point back. */
  predicate HalfEdgeChecked(d: MeshData, i: nat)
    requires i < |d.halfEdges|
  {
    var H := d.halfEdges;
    var he := H[i];
    he.to < |d.vertices|
    && (he.twin == INVALID_INDEX
        || (he.twin < |H| && H[he.twin].twin == i && (he.edge == INVALID_INDEX || H[he.twin].edge == he.edge)))
    && (he.next == INVALID_INDEX || he.next < |H|)
    && (he.prev == INVALID_INDEX || he.prev < |H|)
    && (he.edge == INVALID_INDEX || he.edge < |d.edges|)
    && (he.face == INVALID_INDEX || he.face < |d.faces|)
    && (he.face == INVALID_INDEX || (he.next != INVALID_INDEX && he.prev != INVALID_INDEX))
    && (he.next == INVALID_INDEX || he.next >= |H| || H[he.next].prev == i)
    && (he.prev == INVALID_INDEX || he.prev >= |H| || H[he.prev].next == i)
  }

  /** How the face-loop walk ends: whether it met no error, and how many
      steps it counted. */
  datatype LoopEnd = LoopEnd(ok: bool, count: nat)

  /** The step bound of the face-loop walk: `valence + 1` in 32-bit
      arithmetic. */
  function LoopCap(valence: nat): (cap: nat)
    ensures valence + 1 < U32_MODULUS ==> cap == valence + 1
    ensures cap < U32_MODULUS
  {
    (valence + 1) % U32_MODULUS
  }

  /** The walk around face `f` from `cur`, having counted `count` steps: a
      missing half-edge ends it with an error, a half-edge of another face
      is an error, and it stops on returning to `start`, at an unset
      `next`, or with an error once the count passes `cap`. */
  function FaceLoopFrom(d: MeshData, f: nat, start: nat, cur: nat, count: nat, cap: nat): (r: LoopEnd)
    requires count <= cap
    ensures count <= r.count <= cap + 1
    ensures r.ok ==> r.count <= cap
    decreases cap - count
  {
    if cur >= |d.halfEdges| then LoopEnd(false, count)
    else
      var wrongFace := d.halfEdges[cur].face != f;
      var nx := d.halfEdges[cur].next;
      var c := count + 1;
      if c > cap then LoopEnd(false, c)
      else if nx != start && nx != INVALID_INDEX then
        var r := FaceLoopFrom(d, f, start, nx, c, cap);
        LoopEnd(r.ok && !wrongFace, r.count)
      else LoopEnd(!wrongFace, c)
  }

  /** The walk's count is a natural number where the source keeps a
      `uint32_t`. The two agree unless the valence is 0xFFFFFFFE modulo
      2^32: only then is the cap 2^32 - 1, which a 32-bit counter can never
      pass, and only then can the count reach 2^32. */
  lemma CountFitsUnlessWrapping(d: MeshData, f: nat)
    requires f < |d.faces|
    ensures LoopCap(d.faces[f].valence) == U32_MODULUS - 1 <==> (d.faces[f].valence + 2) % U32_MODULUS == 0
    ensures (d.faces[f].valence + 2) % U32_MODULUS != 0 ==>
      FaceLoopFrom(d, f, d.faces[f].edge, d.faces[f].edge, 0, LoopCap(d.faces[f].valence)).count < U32_MODULUS
  {
  }

  /** The face sweep finds nothing wrong with face `f`: its half-edge
      exists, the walk from it meets no error, and it counts exactly
      `valence` steps. */
  predicate FaceChecked(d: MeshData, f: nat)
    requires f < |d.faces|
  {
    var face := d.faces[f];
    face.edge < |d.halfEdges|
    && var r := FaceLoopFrom(d, f, face.edge, face.edge, 0, LoopCap(face.valence));
       r.ok && r.count == face.valence
  }

  /** The number of half-edges among the first `k` that lie on edge `e`. */
  function CountOnEdge(H: seq<HalfEdge>, e: nat, k: nat): (c: nat)
    requires k <= |H|
    ensures c <= k
  {
    if k == 0 then 0
    else CountOnEdge(H, e, k - 1) + (if H[k - 1].edge == e then 1 else 0)
  }

  /** The manifoldness sweep accepts edge `e`: one or two half-edges lie on it. */
  predicate EdgeChecked(d: MeshData, e: nat)
  {
    1 <= CountOnEdge(d.halfEdges, e, |d.halfEdges|) <= 2
  }

  /** `validate()` returns true: no check reports an error. */
  predicate Valid(d: MeshData)
  {
    (forall i | 0 <= i < |d.halfEdges| :: HalfEdgeChecked(d, i))
    && (forall f | 0 <= f < |d.faces| :: FaceChecked(d, f))
    && (forall e | 0 <= e < |d.edges| :: EdgeChecked(d, e))
  }

  // ---------------------------------------------------------------------
  // The sweep

  /** The checks of the half-edge loop for half-edge `i`, in source order. */
  method CheckHalfEdge(d: MeshData, i: nat) returns (ok: bool)
    requires i < |d.halfEdges|
    ensures ok == HalfEdgeChecked(d, i)
  {
    var H := d.halfEdges;
    var he := H[i];
    if he.to >= |d.vertices| {
      return false;
    }
    ok := true;
    if he.twin != INVALID_INDEX {
      if he.twin >= |H| {
        ok := false;
      } else if H[he.twin].twin != i {
        ok := false;
      } else if he.edge != INVALID_INDEX && H[he.twin].edge != he.edge {
        ok := false;
      }
    }
    if he.next != INVALID_INDEX && he.next >= |H| {
      ok := false;
    }
    if he.prev != INVALID_INDEX && he.prev >= |H| {
      ok := false;
    }
    if he.edge != INVALID_INDEX && he.edge >= |d.edges| {
      ok := false;
    }
    if he.face != INVALID_INDEX && he.face >= |d.faces| {
      ok := false;
    }
    if he.face != INVALID_INDEX && (he.next == INVALID_INDEX || he.prev == INVALID_INDEX) {
      ok := false;
    }
    if he.next != INVALID_INDEX && he.next < |H| && H[he.next].prev != i {
      ok := false;
    }
    if he.prev != INVALID_INDEX && he.prev < |H| && H[he.prev].next != i {
      ok := false;
    }
  }

  /** The do-while walk around face `f`. */
  method CheckFaceLoop(d: MeshData, f: nat) returns (ok: bool)
    requires f < |d.faces|
    ensures ok == FaceChecked(d, f)
  {
    var H := d.halfEdges;
    var face := d.faces[f];
    if face.edge >= |H| {
      return false;
    }
    var start := face.edge;
    var cap := LoopCap(face.valence);
    var current: nat := start;
    var count: nat := 0;
    ok := true;
    ghost var total := FaceLoopFrom(d, f, start, start, 0, cap);
    while true
      invariant count <= cap
      invariant (ok && FaceLoopFrom(d, f, start, current, count, cap).ok) == total.ok
      invariant FaceLoopFrom(d, f, start, current, count, cap).count == total.count
      decreases cap - count
    {
      if current >= |H| {
        ok := false;
        break;
      }
      if H[current].face != f {
        ok := false;
      }
      current := H[current].next;
      count := count + 1;
      if count > cap {
        ok := false;
        break;
      }
      if current == start || current == INVALID_INDEX {
        break;
      }
    }
    if count != face.valence {
      ok := false;
    }
  }

  /** The number of half-edges on edge `e`, counted by a sweep. */
  method CountHalfEdgesOn(d: MeshData, e: nat) returns (heCount: nat)
    ensures heCount == CountOnEdge(d.halfEdges, e, |d.halfEdges|)
  {
    heCount := 0;
    for h := 0 to |d.halfEdges|
      invariant heCount == CountOnEdge(d.halfEdges, e, h)
    {
      if d.halfEdges[h].edge == e {
        heCount := heCount + 1;
      }
    }
  }

  /** `validate`: all three sweeps; the result is false as soon as any
      check fails, and the sweeps go on to report the rest. */
  method Validate(d: MeshData) returns (valid: bool)
    ensures valid == Valid(d)
  {
    valid := true;
    for i := 0 to |d.halfEdges|
      invariant valid == forall j | 0 <= j < i :: HalfEdgeChecked(d, j)
    {
      var ok := CheckHalfEdge(d, i);
      valid := valid && ok;
    }
    ghost var halfEdgesValid := valid;
    for f := 0 to |d.faces|
      invariant valid == (halfEdgesValid && forall g | 0 <= g < f :: FaceChecked(d, g))
    {
      var ok := CheckFaceLoop(d, f);
      valid := valid && ok;
    }
    ghost var facesValid := valid;
    for e := 0 to |d.edges|
      invariant valid == (facesValid && forall g | 0 <= g < e :: EdgeChecked(d, g))
    {
      var heCount := CountHalfEdgesOn(d, e);
      assert EdgeChecked(d, e) <==> !(heCount > 2 || heCount == 0);
      if heCount > 2 || heCount == 0 {
        valid := false;
      }
    }
  }

  // ---------------------------------------------------------------------
  // Every well-formed mesh passes

  lemma HalfEdgesChecked(d: MeshData)
    requires d.LinksInRange() && d.FacesLaidOut() && d.HalfEdgesInTheirFaces() && d.TwinsPaired()
    ensures forall i | 0 <= i < |d.halfEdges| :: HalfEdgeChecked(d, i)
  {
    LaidOutLinksUndo(d);
    forall i | 0 <= i < |d.halfEdges|
      ensures HalfEdgeChecked(d, i)
    {
      assert d.LinksOk(d.halfEdges[i]);
    }
  }

  /** Walking a laid-out face from its `k`-th half-edge meets only
      half-edges of the face and returns to the start after `n` steps. */
  lemma {:induction false} FaceLoopAlong(d: MeshData, f: nat, k: nat)
    requires d.LinksInRange() && f < |d.faces| && d.FaceLaidOut(f) && k < d.faces[f].valence
    ensures d.faces[f].valence + 1 < U32_MODULUS
    ensures FaceLoopFrom(d, f, d.faces[f].edge, d.faces[f].edge + k, k, d.faces[f].valence + 1)
            == LoopEnd(true, d.faces[f].valence)
    decreases d.faces[f].valence - k
  {
    var b, n := d.faces[f].edge, d.faces[f].valence;
    assert d.halfEdges[b + k].next == b + Succ(k, n);
    if k + 1 < n {
      FaceLoopAlong(d, f, k + 1);
    }
  }

  lemma FacesChecked(d: MeshData)
    requires d.LinksInRange() && d.FacesLaidOut()
    ensures forall f | 0 <= f < |d.faces| :: FaceChecked(d, f)
  {
    forall f | 0 <= f < |d.faces|
      ensures FaceChecked(d, f)
    {
      LaidOutFaceChecked(d, f);
    }
  }

  lemma LaidOutFaceChecked(d: MeshData, f: nat)
    requires d.LinksInRange() && f < |d.faces| && d.FaceLaidOut(f)
    ensures FaceChecked(d, f)
  {
    FaceLoopAlong(d, f, 0);
  }

  /** A half-edge on edge `e` among the first `k` makes the count positive. */
  lemma {:induction false} CountPositive(H: seq<HalfEdge>, e: nat, k: nat, a: nat)
    requires a < k <= |H| && H[a].edge == e
    ensures CountOnEdge(H, e, k) >= 1
  {
    if a < k - 1 {
      CountPositive(H, e, k - 1, a);
    }
  }

  /** When only `a` and `b` can lie on edge `e`, at most those two count. */
  lemma {:induction false} CountAtMostTwo(H: seq<HalfEdge>, e: nat, k: nat, a: nat, b: nat)
    requires k <= |H| && a != b
    requires forall h | 0 <= h < k && H[h].edge == e :: h == a || h == b
    ensures CountOnEdge(H, e, k) <= (if a < k then 1 else 0) + (if b < k then 1 else 0)
  {
    if k > 0 {
      CountAtMostTwo(H, e, k - 1, a, b);
    }
  }

  lemma EdgesChecked(d: MeshData)
    requires d.LinksInRange() && d.EdgesUsed() && d.EdgesShared()
    ensures forall e | 0 <= e < |d.edges| :: EdgeChecked(d, e)
  {
    forall e | 0 <= e < |d.edges|
      ensures EdgeChecked(d, e)
    {
      assert d.EdgeInUse(e);
      var a :| 0 <= a < |d.halfEdges| && d.halfEdges[a].edge == e;
      var t := d.halfEdges[a].twin;
      var b := if t == INVALID_INDEX || t == a then |d.halfEdges| else t;
      CountPositive(d.halfEdges, e, |d.halfEdges|, a);
      forall h | 0 <= h < |d.halfEdges| && d.halfEdges[h].edge == e
        ensures h == a || h == b
      {
        if h != a {
          assert d.halfEdges[a].twin == h;
        }
      }
      CountAtMostTwo(d.halfEdges, e, |d.halfEdges|, a, b);
    }
  }

  /** `validate` returns true on every mesh built by the editing
      operations. */
  lemma WellFormedIsValid(d: MeshData)
    requires d.WellFormed()
    ensures Valid(d)
  {
    HalfEdgesChecked(d);
    FacesChecked(d);
    EdgesChecked(d);
  }
}
