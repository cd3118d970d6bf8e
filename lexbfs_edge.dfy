/** The LexBFS library's undirected edge between two vertex numbers. */
module LexEdge {

  datatype Edge = Edge(u: int, v: int)

  /** The edge a default-constructed `Edge` holds. */
  function DefaultEdge(): (e: Edge)
    ensures e.u == 0 && e.v == 0
  {
    Edge(0, 0)
  }

  /**
   * The endpoint opposite `a`: `v` when `a` is `u`, and `u` for every other
   * argument, whether or not it is an endpoint.
   */
  function OtherEnd(e: Edge, a: int): (r: int)
    ensures r == e.u || r == e.v
    ensures a == e.u ==> r == e.v
    ensures a != e.u ==> r == e.u
  {
    if e.u == a then e.v else e.u
  }

  /** Walking an edge twice from either endpoint returns to the start. */
  lemma OtherEndInvolution(e: Edge, a: int)
    requires a == e.u || a == e.v
    ensures OtherEnd(e, OtherEnd(e, a)) == a
  {
  }
}
