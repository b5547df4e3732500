// The control mesh's own vertex queries, which walk round a vertex
// without a visited set (getVertexValence, isBoundaryVertex), and the
// directed-edge lookups as mesh.cpp writes them.

module MeshQueries {
  import opened MeshTypes
  import opened HalfEdgeTopology

  /** A link the walks follow: the sentinel or a half-edge. */
  predicate IsLink(d: MeshData, i: nat)
  {
    i == INVALID_INDEX || i < |d.halfEdges|
  }

  /** What the walks read without a bounds check: every `next`, `prev`,
      `twin` and `outgoing` link is the sentinel or names a half-edge. */
  ghost predicate LinksBounded(d: MeshData)
  {
    (forall h | 0 <= h < |d.halfEdges| ::
       IsLink(d, d.halfEdges[h].next) && IsLink(d, d.halfEdges[h].prev) && IsLink(d, d.halfEdges[h].twin))
    && (forall v | 0 <= v < |d.vertices| :: IsLink(d, d.vertices[v].outgoing))
  }

  lemma InRangeBounded(d: MeshData)
    requires d.LinksInRange()
    ensures LinksBounded(d)
  {
    forall h | 0 <= h < |d.halfEdges|
      ensures IsLink(d, d.halfEdges[h].next) && IsLink(d, d.halfEdges[h].prev) && IsLink(d, d.halfEdges[h].twin)
    {
      assert d.LinksOk(d.halfEdges[h]);
    }
  }

  // ------------------------------------------------------------ valence

  /** The forward walk gives up once it has counted more than this many spokes. */
  const VALENCE_CAP: nat := 1000

  /** How the forward part of the valence walk ends: it counted more than
      the cap, came back round (to its start or to an unset successor), or
      reached a half-edge without a twin after counting `spokes` spokes. */
  datatype ForwardEnd = Capped | Closed(spokes: nat) | Opened(spokes: nat)

  /** The forward walk of `getVertexValence` from half-edge `cur`, with
      `count` spokes counted before it: count `cur`, then step to the
      successor of its twin. */
  function ForwardSpokes(d: MeshData, start: nat, cur: nat, count: nat): (r: ForwardEnd)
    requires LinksBounded(d) && cur < |d.halfEdges| && count <= VALENCE_CAP
    ensures r.Closed? ==> count < r.spokes <= VALENCE_CAP
    ensures r.Opened? ==> count < r.spokes <= VALENCE_CAP + 1
    decreases VALENCE_CAP - count
  {
    var c := count + 1;
    var t := d.halfEdges[cur].twin;
    if t == INVALID_INDEX then Opened(c)
    else
      var nx := d.halfEdges[t].next;
      if c > VALENCE_CAP then Capped
      else if nx == start || nx == INVALID_INDEX then Closed(c)
      else ForwardSpokes(d, start, nx, c)
  }

  /** Where the backward walk stopped: after `steps` steps, at a
      predecessor without a twin (`atBorder`) or at an unset predecessor. */
  datatype BackwardEnd = BackwardEnd(steps: nat, atBorder: bool)

  /** The backward walk of `getVertexValence` from `cur`: step to the twin
      of the predecessor while both exist. `None` when it has not stopped
      within `fuel` steps; with `fuel` the number of half-edges that means it
      never stops, since it then repeats a half-edge other than its start. */
  function BackwardSpokes(d: MeshData, cur: nat, fuel: nat): (r: Option<BackwardEnd>)
    requires LinksBounded(d) && cur < |d.halfEdges|
    ensures r.Some? ==> r.value.steps <= fuel
    decreases fuel
  {
    var p := d.halfEdges[cur].prev;
    if p == INVALID_INDEX then Some(BackwardEnd(0, false))
    else
      var pt := d.halfEdges[p].twin;
      if pt == INVALID_INDEX then Some(BackwardEnd(0, true))
      else if fuel == 0 then None
      else match BackwardSpokes(d, pt, fuel - 1)
        case None => None
        case Some(e) => Some(e.(steps := e.steps + 1))
  }

  /** `getVertexValence` as written: 0 for an isolated vertex, -1 once the
      forward walk has counted more than 1000 spokes, the forward count
      when the walk comes back round, and otherwise the forward count plus
      the steps of the backward walk from the outgoing half-edge. `None`
      when the backward walk never stops. */
  function VertexValenceAsWritten(d: MeshData, v: nat): (r: Option<int>)
    requires LinksBounded(d) && v < |d.vertices|
    ensures d.vertices[v].outgoing == INVALID_INDEX ==> r == Some(0)
    ensures r.Some? ==> -1 <= r.value
  {
    var o := d.vertices[v].outgoing;
    if o == INVALID_INDEX then Some(0)
    else match ForwardSpokes(d, o, o, 0)
      case Capped => Some(-1)
      case Closed(c) => Some(c)
      case Opened(c) =>
        match BackwardSpokes(d, o, |d.halfEdges|)
        case None => None
        case Some(b) => Some(c + b.steps)
  }

  /** The valence the walk is meant to count. When the backward walk stops
      at a predecessor without a twin, that predecessor comes into the
      vertex along one more edge, which the as-written count leaves out. */
  function VertexValence(d: MeshData, v: nat): (r: Option<int>)
    requires LinksBounded(d) && v < |d.vertices|
    ensures d.vertices[v].outgoing == INVALID_INDEX ==> r == Some(0)
    ensures r.Some? ==> -1 <= r.value
  {
    var o := d.vertices[v].outgoing;
    if o == INVALID_INDEX then Some(0)
    else match ForwardSpokes(d, o, o, 0)
      case Capped => Some(-1)
      case Closed(c) => Some(c)
      case Opened(c) =>
        match BackwardSpokes(d, o, |d.halfEdges|)
        case None => None
        case Some(b) => Some(c + b.steps + if b.atBorder then 1 else 0)
  }

  /** `getVertexValence` as written: the forward walk, and at a half-edge
      without a twin the backward walk from the outgoing half-edge. */
  method GetVertexValence(d: MeshData, v: nat) returns (valence: int)
    requires LinksBounded(d) && v < |d.vertices| && VertexValenceAsWritten(d, v).Some?
    ensures valence == VertexValenceAsWritten(d, v).value
  {
    var start := d.vertices[v].outgoing;
    if start == INVALID_INDEX {
      return 0;
    }
    var forward := WalkForward(d, start);
    match forward
    case Capped => valence := -1;
    case Closed(c) => valence := c;
    case Opened(c) =>
      var back := WalkBackward(d, start);
      valence := c + back.steps;
  }

  /** The valence the walk is meant to count: as written, plus the spoke
      into the vertex from the predecessor where the backward walk stops. */
  method CountValence(d: MeshData, v: nat) returns (valence: int)
    requires LinksBounded(d) && v < |d.vertices| && VertexValence(d, v).Some?
    ensures valence == VertexValence(d, v).value
  {
    var start := d.vertices[v].outgoing;
    if start == INVALID_INDEX {
      return 0;
    }
    var forward := WalkForward(d, start);
    match forward
    case Capped => valence := -1;
    case Closed(c) => valence := c;
    case Opened(c) =>
      var back := WalkBackward(d, start);
      valence := c + back.steps + if back.atBorder then 1 else 0;
  }

  /** The forward loop of `getVertexValence`: count the current spoke, stop
      at a half-edge without a twin, otherwise go on to the successor of the
      twin until the walk comes back round or passes the cap. */
  method WalkForward(d: MeshData, start: nat) returns (r: ForwardEnd)
    requires LinksBounded(d) && start < |d.halfEdges|
    ensures r == ForwardSpokes(d, start, start, 0)
  {
    var valence := 0;
    var current: nat := start;
    while true
      invariant current < |d.halfEdges| && 0 <= valence <= VALENCE_CAP
      invariant ForwardSpokes(d, start, current, valence) == ForwardSpokes(d, start, start, 0)
      decreases VALENCE_CAP - valence
    {
      valence := valence + 1;
      var twin := d.halfEdges[current].twin;
      if twin == INVALID_INDEX {
        return Opened(valence);
      }
      current := d.halfEdges[twin].next;
      if valence > VALENCE_CAP {
        return Capped;
      }
      if current == start || current == INVALID_INDEX {
        return Closed(valence);
      }
    }
  }

  /** The backward loop of `getVertexValence`: one step per predecessor
      that has a twin, and where it stopped. */
  method WalkBackward(d: MeshData, start: nat) returns (e: BackwardEnd)
    requires LinksBounded(d) && start < |d.halfEdges| && BackwardSpokes(d, start, |d.halfEdges|).Some?
    ensures e == BackwardSpokes(d, start, |d.halfEdges|).value
  {
    var steps := 0;
    var current: nat := start;
    ghost var fuel: nat := |d.halfEdges|;
    while true
      invariant current < |d.halfEdges| && BackwardSpokes(d, current, fuel).Some?
      invariant BackwardSpokes(d, current, fuel).value.(steps := steps + BackwardSpokes(d, current, fuel).value.steps)
                == BackwardSpokes(d, start, |d.halfEdges|).value
      decreases fuel
    {
      var prev := d.halfEdges[current].prev;
      if prev == INVALID_INDEX {
        return BackwardEnd(steps, false);
      }
      var prevTwin := d.halfEdges[prev].twin;
      if prevTwin == INVALID_INDEX {
        return BackwardEnd(steps, true);
      }
      current := prevTwin;
      steps := steps + 1;
      fuel := fuel - 1;
    }
  }

  // ----------------------------------------------------------- boundary

  /** The walk of `isBoundaryVertex` from `cur`: a half-edge without a twin,
      or a twin without a successor, makes the vertex a boundary vertex;
      coming back to `start` makes it interior. `None` when it has not
      stopped within `fuel` steps (then it never does). */
  function BoundaryWalk(d: MeshData, start: nat, cur: nat, fuel: nat): (r: Option<bool>)
    requires LinksBounded(d) && cur < |d.halfEdges|
    decreases fuel
  {
    var t := d.halfEdges[cur].twin;
    if t == INVALID_INDEX then Some(true)
    else
      var nx := d.halfEdges[t].next;
      if nx == INVALID_INDEX then Some(true)
      else if nx == start then Some(false)
      else if fuel == 0 then None
      else BoundaryWalk(d, start, nx, fuel - 1)
  }

  /** `isBoundaryVertex`: an isolated vertex counts as a boundary vertex. */
  function BoundaryQuery(d: MeshData, v: nat): (r: Option<bool>)
    requires LinksBounded(d) && v < |d.vertices|
    ensures d.vertices[v].outgoing == INVALID_INDEX ==> r == Some(true)
  {
    var o := d.vertices[v].outgoing;
    if o == INVALID_INDEX then Some(true) else BoundaryWalk(d, o, o, |d.halfEdges|)
  }

  /** `isBoundaryVertex`; the source tests the twin twice, which is one test. */
  method IsBoundaryVertex(d: MeshData, v: nat) returns (b: bool)
    requires LinksBounded(d) && v < |d.vertices| && BoundaryQuery(d, v).Some?
    ensures b == BoundaryQuery(d, v).value
  {
    var start := d.vertices[v].outgoing;
    if start == INVALID_INDEX {
      return true;
    }
    var current: nat := start;
    ghost var fuel: nat := |d.halfEdges|;
    while true
      invariant current < |d.halfEdges|
      invariant BoundaryWalk(d, start, current, fuel) == BoundaryWalk(d, start, start, |d.halfEdges|)
      decreases fuel
    {
      var twin := d.halfEdges[current].twin;
      if twin == INVALID_INDEX {
        return true;
      }
      current := d.halfEdges[twin].next;
      if current == INVALID_INDEX {
        return true;
      }
      if current == start {
        return false;
      }
      fuel := fuel - 1;
    }
  }

  // ------------------------------------- termination on well-formed meshes

  /** `next` and `prev` undo each other and `twin` is an involution, as in
      every mesh whose faces are laid out as addFace lays them out. */
  ghost predicate LinksUndo(d: MeshData)
  {
    LinksBounded(d) && |d.halfEdges| < INVALID_INDEX
    && (forall h {:trigger d.halfEdges[h].next} | 0 <= h < |d.halfEdges| :: d.halfEdges[h].next < |d.halfEdges|)
    && (forall h {:trigger d.halfEdges[h].prev} | 0 <= h < |d.halfEdges| :: d.halfEdges[h].prev < |d.halfEdges|)
    && (forall h {:trigger d.halfEdges[d.halfEdges[h].next].prev} | 0 <= h < |d.halfEdges| ::
          d.halfEdges[d.halfEdges[h].next].prev == h)
    && (forall h {:trigger d.halfEdges[d.halfEdges[h].prev].next} | 0 <= h < |d.halfEdges| ::
          d.halfEdges[d.halfEdges[h].prev].next == h)
    && (forall h {:trigger d.halfEdges[d.halfEdges[h].twin].twin}
          | 0 <= h < |d.halfEdges| && d.halfEdges[h].twin != INVALID_INDEX ::
          d.halfEdges[d.halfEdges[h].twin].twin == h)
  }

  lemma LaidOutLinksUndo(d: MeshData)
    requires d.LinksInRange() && d.FacesLaidOut() && d.HalfEdgesInTheirFaces() && d.TwinsPaired()
    ensures LinksUndo(d)
  {
    InRangeBounded(d);
    forall h | 0 <= h < |d.halfEdges|
      ensures d.halfEdges[h].next < |d.halfEdges| && d.halfEdges[d.halfEdges[h].next].prev == h
      ensures d.halfEdges[h].prev < |d.halfEdges| && d.halfEdges[d.halfEdges[h].prev].next == h
    {
      var f := d.halfEdges[h].face;
      assert d.LinksOk(d.halfEdges[h]);
      assert d.FaceLaidOut(f);
      PredSucc(h - d.faces[f].edge, d.faces[f].valence);
    }
  }

  /** A sequence of distinct indices below `n` has at most `n` entries. */
  lemma {:induction false} DistinctBelow(p: seq<nat>, n: nat)
    requires forall i | 0 <= i < |p| :: p[i] < n
    requires forall i, j | 0 <= i < j < |p| :: p[i] != p[j]
    ensures |p| <= n
    decreases |p|
  {
    if |p| > 0 {
      var x := p[|p| - 1];
      var q := seq(|p| - 1, i requires 0 <= i < |p| - 1 => if p[i] == n - 1 then x else p[i]);
      assert forall i | 0 <= i < |q| :: q[i] < n - 1;
      DistinctBelow(q, n - 1);
    }
  }

  /** One step of the boundary walk (and of the forward valence walk): from
      `a` to the successor of its twin. */
  ghost predicate SpinStep(d: MeshData, a: nat, b: nat)
    requires LinksBounded(d) && a < |d.halfEdges|
  {
    d.halfEdges[a].twin != INVALID_INDEX && d.halfEdges[d.halfEdges[a].twin].next == b
  }

  /** `p` is a run of the boundary walk that never comes back to `p[0]`. */
  ghost predicate SpinPath(d: MeshData, p: seq<nat>)
    requires LinksBounded(d)
  {
    |p| >= 1 && (forall i | 0 <= i < |p| :: p[i] < |d.halfEdges|)
    && forall i | 0 < i < |p| :: SpinStep(d, p[i - 1], p[i]) && p[i] != p[0]
  }

  /** A boundary walk that has not stopped within `fuel` more steps runs
      through `fuel + 1` more half-edges. */
  lemma {:induction false} BoundaryRun(d: MeshData, p: seq<nat>, fuel: nat) returns (q: seq<nat>)
    requires LinksBounded(d) && SpinPath(d, p)
    requires BoundaryWalk(d, p[0], p[|p| - 1], fuel).None?
    ensures SpinPath(d, q) && q[0] == p[0] && |q| == |p| + fuel + 1
    decreases fuel
  {
    var t := d.halfEdges[p[|p| - 1]].twin;
    var p' := p + [d.halfEdges[t].next];
    assert SpinStep(d, p'[|p| - 1], p'[|p|]);
    assert SpinPath(d, p');
    if fuel == 0 {
      q := p';
    } else {
      q := BoundaryRun(d, p', fuel - 1);
    }
  }

  /** The walk's step is injective. */
  lemma SpinInjective(d: MeshData, a: nat, b: nat, c: nat)
    requires LinksUndo(d) && a < |d.halfEdges| && b < |d.halfEdges|
    requires SpinStep(d, a, c) && SpinStep(d, b, c)
    ensures a == b
  {
    var ta, tb := d.halfEdges[a].twin, d.halfEdges[b].twin;
    assert ta == d.halfEdges[d.halfEdges[ta].next].prev;
    assert tb == d.halfEdges[d.halfEdges[tb].next].prev;
  }

  /** The first `k` half-edges of a boundary run are distinct. */
  lemma {:induction false} SpinPathDistinct(d: MeshData, p: seq<nat>, k: nat)
    requires LinksUndo(d) && SpinPath(d, p) && k <= |p|
    ensures forall i, j | 0 <= i < j < k :: p[i] != p[j]
  {
    if k > 1 {
      SpinPathDistinct(d, p, k - 1);
      forall j | 0 < j < k - 1
        ensures p[j] != p[k - 1]
      {
        if p[j] == p[k - 1] {
          SpinInjective(d, p[j - 1], p[k - 2], p[j]);
        }
      }
    }
  }

  /** `isBoundaryVertex` stops on every vertex of a mesh whose links undo
      each other: its walk cannot revisit a half-edge without first coming
      back to its start. */
  lemma BoundaryWalkStops(d: MeshData, v: nat)
    requires LinksUndo(d) && v < |d.vertices|
    ensures BoundaryQuery(d, v).Some?
  {
    var o := d.vertices[v].outgoing;
    if o != INVALID_INDEX && BoundaryWalk(d, o, o, |d.halfEdges|).None? {
      var q := BoundaryRun(d, [o], |d.halfEdges|);
      SpinPathDistinct(d, q, |q|);
      DistinctBelow(q, |d.halfEdges|);
    }
  }

  /** One step of the backward walk: from `a` to the twin of its predecessor. */
  ghost predicate BackStep(d: MeshData, a: nat, b: nat)
    requires LinksBounded(d) && a < |d.halfEdges|
  {
    d.halfEdges[a].prev != INVALID_INDEX && d.halfEdges[d.halfEdges[a].prev].twin == b
  }

  /** `p` is a run of the backward walk. */
  ghost predicate BackPath(d: MeshData, p: seq<nat>)
    requires LinksBounded(d)
  {
    |p| >= 1 && (forall i | 0 <= i < |p| :: p[i] < |d.halfEdges|)
    && forall i | 0 < i < |p| :: BackStep(d, p[i - 1], p[i])
  }

  lemma {:induction false} BackwardRun(d: MeshData, p: seq<nat>, fuel: nat) returns (q: seq<nat>)
    requires LinksBounded(d) && BackPath(d, p)
    requires BackwardSpokes(d, p[|p| - 1], fuel).None?
    ensures BackPath(d, q) && q[0] == p[0] && |q| == |p| + fuel + 1
    decreases fuel
  {
    var pr := d.halfEdges[p[|p| - 1]].prev;
    var p' := p + [d.halfEdges[pr].twin];
    assert BackStep(d, p'[|p| - 1], p'[|p|]);
    assert BackPath(d, p');
    if fuel == 0 {
      q := p';
    } else {
      q := BackwardRun(d, p', fuel - 1);
    }
  }

  /** The backward step is injective, and undone by the forward step. */
  lemma BackUndone(d: MeshData, a: nat, c: nat)
    requires LinksUndo(d) && a < |d.halfEdges| && c < |d.halfEdges| && BackStep(d, a, c)
    ensures SpinStep(d, c, a)
  {
    var pa := d.halfEdges[a].prev;
    assert pa < |d.halfEdges| && d.halfEdges[pa].next == a;
    assert d.halfEdges[d.halfEdges[pa].twin].twin == pa;
  }

  lemma {:induction false} BackPathDistinct(d: MeshData, p: seq<nat>, k: nat)
    requires LinksUndo(d) && BackPath(d, p) && k <= |p|
    requires forall i | 1 <= i < |p| :: p[i] != p[0]
    ensures forall i, j | 0 <= i < j < k :: p[i] != p[j]
  {
    if k > 1 {
      BackPathDistinct(d, p, k - 1);
      forall j | 0 < j < k - 1
        ensures p[j] != p[k - 1]
      {
        if p[j] == p[k - 1] {
          BackUndone(d, p[j - 1], p[j]);
          BackUndone(d, p[k - 2], p[k - 1]);
        }
      }
    }
  }

  /** The forward step from `x` exists and lands in `S`. */
  ghost predicate StepsWithin(d: MeshData, x: nat, S: set<nat>)
    requires LinksBounded(d) && x < |d.halfEdges|
  {
    d.halfEdges[x].twin != INVALID_INDEX && d.halfEdges[d.halfEdges[x].twin].next in S
  }

  /** Every half-edge of `S` steps forward into `S`. */
  ghost predicate SpinClosed(d: MeshData, S: set<nat>)
    requires LinksBounded(d)
  {
    forall x | x in S :: x < |d.halfEdges| && StepsWithin(d, x, S)
  }

  /** A forward walk that starts in such a set never meets a half-edge without a twin. */
  lemma {:induction false} ForwardStaysClosed(d: MeshData, start: nat, cur: nat, count: nat, S: set<nat>)
    requires LinksBounded(d) && SpinClosed(d, S) && cur in S && count <= VALENCE_CAP
    ensures !ForwardSpokes(d, start, cur, count).Opened?
    decreases VALENCE_CAP - count
  {
    assert StepsWithin(d, cur, S);
    var nx := d.halfEdges[d.halfEdges[cur].twin].next;
    if count + 1 <= VALENCE_CAP && nx != start && nx != INVALID_INDEX {
      ForwardStaysClosed(d, start, nx, count + 1, S);
    }
  }

  /** A backward run that comes back to its start is a cycle the forward
      walk goes round, stepping from each entry to the one before. */
  lemma BackCycleClosed(d: MeshData, p: seq<nat>, k: nat) returns (S: set<nat>)
    requires LinksUndo(d) && BackPath(d, p) && 1 <= k < |p| && p[k] == p[0]
    ensures p[0] in S && SpinClosed(d, S)
  {
    S := set j | 0 <= j < k :: p[j];
    forall x | x in S
      ensures x < |d.halfEdges| && StepsWithin(d, x, S)
    {
      var j :| 0 <= j < k && x == p[j];
      var i := if j == 0 then k - 1 else j - 1;
      BackUndone(d, p[i], p[i + 1]);
      assert p[i] in S;
    }
  }

  /** The backward walk never comes back to its start when the forward walk
      from there met a half-edge without a twin. */
  lemma BackPathAvoidsStart(d: MeshData, p: seq<nat>)
    requires LinksUndo(d) && BackPath(d, p) && ForwardSpokes(d, p[0], p[0], 0).Opened?
    ensures forall k | 1 <= k < |p| :: p[k] != p[0]
  {
    forall k | 1 <= k < |p|
      ensures p[k] != p[0]
    {
      if p[k] == p[0] {
        var S := BackCycleClosed(d, p, k);
        ForwardStaysClosed(d, p[0], p[0], 0, S);
      }
    }
  }

  /** `getVertexValence` stops on every vertex of a mesh whose links undo
      each other: its backward walk cannot come back to its start, and
      cannot revisit any other half-edge. */
  lemma ValenceWalkStops(d: MeshData, v: nat)
    requires LinksUndo(d) && v < |d.vertices|
    ensures VertexValenceAsWritten(d, v).Some? && VertexValence(d, v).Some?
  {
    var o := d.vertices[v].outgoing;
    if o != INVALID_INDEX && ForwardSpokes(d, o, o, 0).Opened? && BackwardSpokes(d, o, |d.halfEdges|).None? {
      var q := BackwardRun(d, [o], |d.halfEdges|);
      BackPathAvoidsStart(d, q);
      BackPathDistinct(d, q, |q|);
      DistinctBelow(q, |d.halfEdges|);
    }
  }

  // ------------------------------------------------- the walks agree

  /** Both walks take the same steps, so until the valence walk reaches its
      cap, the boundary walk reports a boundary exactly when the valence walk
      meets a half-edge without a twin. */
  lemma {:induction false} WalksAgree(d: MeshData, start: nat, cur: nat, count: nat, fuel: nat)
    requires LinksUndo(d) && cur < |d.halfEdges| && count <= VALENCE_CAP
    requires BoundaryWalk(d, start, cur, fuel).Some? && !ForwardSpokes(d, start, cur, count).Capped?
    ensures BoundaryWalk(d, start, cur, fuel) == Some(ForwardSpokes(d, start, cur, count).Opened?)
    decreases fuel
  {
    var t := d.halfEdges[cur].twin;
    if t != INVALID_INDEX {
      var nx := d.halfEdges[t].next;
      if nx != start && count + 1 <= VALENCE_CAP {
        WalksAgree(d, start, nx, count + 1, fuel - 1);
      }
    }
  }

  /** In a mesh whose links undo each other both queries answer, a vertex
      whose valence walk is not capped is a boundary vertex exactly when
      that walk meets a half-edge without a twin, and for a vertex that is
      not a boundary vertex the as-written valence is the intended one. */
  lemma BoundaryMeansOpenFan(d: MeshData, v: nat)
    requires LinksUndo(d) && v < |d.vertices|
    ensures BoundaryQuery(d, v).Some? && VertexValence(d, v).Some? && VertexValenceAsWritten(d, v).Some?
    ensures var o := d.vertices[v].outgoing;
      o != INVALID_INDEX && !ForwardSpokes(d, o, o, 0).Capped? ==>
        (BoundaryQuery(d, v).value <==> ForwardSpokes(d, o, o, 0).Opened?)
    ensures BoundaryQuery(d, v) == Some(false) ==> VertexValence(d, v) == VertexValenceAsWritten(d, v)
  {
    BoundaryWalkStops(d, v);
    ValenceWalkStops(d, v);
    var o := d.vertices[v].outgoing;
    if o != INVALID_INDEX && !ForwardSpokes(d, o, o, 0).Capped? {
      WalksAgree(d, o, o, 0, |d.halfEdges|);
    }
  }

  // ------------------------------------------------- lookups as written

  /** `findHalfEdge` as written: only the half-edge registered under the
      key of `(v0, v1)` itself. */
  function FindHalfEdgeAsWritten(d: MeshData, v0: Index32, v1: Index32): (h: nat)
    requires d.LinksInRange() && d.MapSound()
    ensures h == INVALID_INDEX || (h < |d.halfEdges| && d.FromVertex(h) == v0 && d.halfEdges[h].to == v1)
  {
    var key := DirectedEdgeKey(v0, v1);
    if key in d.edgeMap then
      DirectedEdgeKeyInjective(d.FromVertex(d.edgeMap[key]), d.halfEdges[d.edgeMap[key]].to, v0, v1);
      d.edgeMap[key]
    else
      INVALID_INDEX
  }

  /** In a mesh whose directed pairs are unique, the as-written lookup finds
      a half-edge by its endpoints exactly when that half-edge is registered
      in the map; addFace registers only the first half-edge of each edge. */
  lemma AsWrittenFindsRegistered(d: MeshData, h: nat)
    requires d.LinksInRange() && d.MapSound() && d.DirectedPairsUnique() && h < |d.halfEdges|
    ensures d.FromVertex(h) < |d.vertices| && d.halfEdges[h].to < |d.vertices|
    ensures FindHalfEdgeAsWritten(d, d.FromVertex(h), d.halfEdges[h].to)
            == if d.Registered(h) then h else INVALID_INDEX
  {
    d.EndpointsAreVertices(h);
    var key := d.KeyOf(h);
    if key in d.edgeMap {
      assert d.KeyOf(d.edgeMap[key]) == key;
    }
  }

  /** `findEdge` as written, over the as-written lookup in both directions. */
  function FindEdgeAsWritten(d: MeshData, v0: Index32, v1: Index32): (e: nat)
    requires d.LinksInRange() && d.MapSound()
    ensures e == INVALID_INDEX || e < |d.edges|
  {
    var h := FindHalfEdgeAsWritten(d, v0, v1);
    var h' := if h == INVALID_INDEX then FindHalfEdgeAsWritten(d, v1, v0) else h;
    if h' == INVALID_INDEX then INVALID_INDEX else d.halfEdges[h'].edge
  }

  /** The one-sided lookup does not affect `findEdge`: trying both
      directions finds the registered half-edge of the edge, which shares
      its edge record with its twin. */
  lemma FindEdgeAsWrittenAgrees(d: MeshData, a: Index32, b: Index32)
    requires d.WellFormed()
    ensures FindEdgeAsWritten(d, a, b) == d.FindEdge(a, b)
  {
    d.FindHalfEdgeMisses(a, b);
    d.FindHalfEdgeMisses(b, a);
    var h, g := d.FindHalfEdge(a, b), d.FindHalfEdge(b, a);
    if h != INVALID_INDEX {
      AsWrittenFindsRegistered(d, h);
      if !d.Registered(h) {
        var t := d.halfEdges[h].twin;
        AsWrittenFindsRegistered(d, t);
        assert d.FromVertex(t) == b && d.halfEdges[t].to == a;
      }
    } else if g != INVALID_INDEX {
      AsWrittenFindsRegistered(d, g);
      assert d.Registered(g);
    }
  }

  /** On a well-formed mesh both vertex queries answer for every vertex. */
  lemma WellFormedWalksStop(d: MeshData, v: nat)
    requires d.WellFormed() && v < |d.vertices|
    ensures LinksUndo(d)
    ensures BoundaryQuery(d, v).Some? && VertexValence(d, v).Some? && VertexValenceAsWritten(d, v).Some?
  {
    LaidOutLinksUndo(d);
    BoundaryMeansOpenFan(d, v);
  }
}
