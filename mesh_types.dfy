// Index-based mesh records shared by the control mesh, the topology cache
// and the render-index builder: vertices, half-edges, edges and faces refer
// to each other by position in their arrays, with one sentinel for "none".

module MeshTypes {

  /** 2^32: the number of distinct 32-bit index values. */
  const U32_MODULUS: nat := 0x1_0000_0000

  /** The sentinel for "no element", the largest 32-bit value. */
  const INVALID_INDEX: nat := 0xFFFF_FFFF

  /** A 32-bit unsigned index (vertex, half-edge, edge or face index). */
  type Index32 = x: nat | x < U32_MODULUS

  /** An index names an element of an array of `size` elements. */
  predicate IsValidIndex(idx: nat, size: nat)
  {
    idx != INVALID_INDEX && idx < size
  }

  /** The sentinel is the maximum of the 32-bit index type, so no valid
      index of an array that fits the index type can be equal to it. */
  lemma InvalidIndexIsMaximum(i: Index32, size: nat)
    requires size <= INVALID_INDEX
    ensures INVALID_INDEX == U32_MODULUS - 1
    ensures i <= INVALID_INDEX
    ensures IsValidIndex(i, size) <==> i < size
    ensures !IsValidIndex(INVALID_INDEX, size + 1)
  {
  }

  /** Crease classification of an edge: SMOOTH = 0, CREASE = 1, SEMI = 2. */
  datatype EdgeTag = Smooth | Crease | Semi
  {
    function Code(): (c: nat)
      ensures c <= 2
      ensures this == Smooth <==> c == 0
      ensures this == Crease <==> c == 1
    {
      match this
      case Smooth => 0
      case Crease => 1
      case Semi => 2
    }
  }

  /** A vertex: one outgoing half-edge, corner sharpness and dart flag.
      Positions live in a separate attribute array and are not modelled. */
  datatype Vertex = Vertex(outgoing: nat, sharpness: real, isCorner: nat)

  /** A directed half-edge. `to` is its head vertex; its tail is the head
      of `prev`. `twin` is the opposite half-edge, `edge` the shared edge
      record and `face` the face it bounds. */
  datatype HalfEdge = HalfEdge(to: nat, next: nat, prev: nat, twin: nat, edge: nat, face: nat)

  /** Per-edge crease data shared by the two half-edges of an edge. */
  datatype Edge = Edge(tag: EdgeTag, sharpness: real)

  /** A face: one of its half-edges and its number of vertices. */
  datatype Face = Face(edge: nat, valence: nat)

  /** A default-constructed vertex is isolated: it has no outgoing half-edge. */
  function DefaultVertex(): (v: Vertex)
    ensures v.outgoing == INVALID_INDEX
    ensures v.sharpness == 0.0 && v.isCorner == 0
  {
    Vertex(INVALID_INDEX, 0.0, 0)
  }

  /** A default-constructed half-edge has every link unset. */
  function DefaultHalfEdge(): (h: HalfEdge)
    ensures h.to == INVALID_INDEX && h.next == INVALID_INDEX && h.prev == INVALID_INDEX
    ensures h.twin == INVALID_INDEX && h.edge == INVALID_INDEX && h.face == INVALID_INDEX
  {
    HalfEdge(INVALID_INDEX, INVALID_INDEX, INVALID_INDEX, INVALID_INDEX, INVALID_INDEX, INVALID_INDEX)
  }

  /** A default-constructed edge is smooth with zero sharpness. */
  function DefaultEdge(): (e: Edge)
    ensures e.tag == Smooth && e.tag.Code() == 0
    ensures e.sharpness == 0.0
  {
    Edge(Smooth, 0.0)
  }

  /** A default-constructed face has no half-edge and no vertices. */
  function DefaultFace(): (f: Face)
    ensures f.edge == INVALID_INDEX && f.valence == 0
  {
    Face(INVALID_INDEX, 0)
  }

  /** Optional values, used where the source returns a null pointer or an
      empty optional. */
  datatype Option<T> = None | Some(value: T)
}
