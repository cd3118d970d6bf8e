/**
  The red-black graph as the program keeps it: one object whose vertex list,
  name -> type map, edges and species/character counters are updated in place.
  Value() reads the object as a Graph, and every operation is proved to leave
  the value that the corresponding function of RBGraphCore or RBGraphOps gives.
*/
module RBGraphs {
  import opened Seqs
  import opened RBGraphCore
  import opened RBGraphOps

  /** An operation either completes or throws std::runtime_error for a reason. */
  datatype Outcome = Done | Thrown(reason: Failure)

  /** The graph an operation leaves: the new one, or the old one when it throws. */
  function After(R: Result<Graph>, G: Graph): Graph
  {
    if R.Ok? then R.value else G
  }

  /** What an operation reports: completion, or the exception it throws. */
  function OutcomeOf(R: Result<Graph>): Outcome
  {
    if R.Ok? then Done else Thrown(R.reason)
  }

  class RBGraph {
    var vertices: seq<string>
    var vtype: map<string, Type>
    var edges: map<(string, string), Color>
    var numSpecies: nat
    var numCharacters: nat

    function Value(): Graph
      reads this
    {
      Graph(vertices, vtype, edges, numSpecies, numCharacters)
    }

    ghost predicate Valid()
      reads this
    {
      RBGraphCore.Valid(Value())
    }

    /** An empty graph. */
    constructor()
      ensures Value() == Graph([], map[], map[], 0, 0) && Valid()
    {
      vertices, vtype, edges := [], map[], map[];
      numSpecies, numCharacters := 0, 0;
    }

    /** copy_graph(g, *this): the same vertices, names, edges and counters. */
    constructor Copy(g: RBGraph)
      ensures Value() == g.Value()
    {
      vertices, vtype, edges := g.vertices, g.vtype, g.edges;
      numSpecies, numCharacters := g.numSpecies, g.numCharacters;
    }

    /** clear(g): boost's clear empties the graph and the name map is cleared. */
    method Clear()
      modifies this
      ensures Value() == ClearAsWritten(old(Value()))
    {
      vertices, vtype, edges := [], map[], map[];
    }

    /** add_vertex(name, type, g). */
    method AddVertex(name: string, t: Type) returns (out: Outcome)
      modifies this
      ensures Value() == After(RBGraphCore.AddVertex(old(Value()), name, t), old(Value()))
      ensures out == OutcomeOf(RBGraphCore.AddVertex(old(Value()), name, t))
    {
      if name in vtype {
        return Thrown(VertexExists);
      }
      vertices := vertices + [name];
      vtype := vtype[name := t];
      if t == Species {
        numSpecies := numSpecies + 1;
      } else {
        numCharacters := numCharacters + 1;
      }
      out := Done;
    }

    /** add_species(name, g) is add_vertex with type species. */
    method AddSpecies(name: string) returns (out: Outcome)
      modifies this
      ensures Value() == After(RBGraphCore.AddVertex(old(Value()), name, Species), old(Value()))
      ensures out == OutcomeOf(RBGraphCore.AddVertex(old(Value()), name, Species))
    {
      out := AddVertex(name, Species);
    }

    /** add_character(name, g) is add_vertex with type character. */
    method AddCharacter(name: string) returns (out: Outcome)
      modifies this
      ensures Value() == After(RBGraphCore.AddVertex(old(Value()), name, Character), old(Value()))
      ensures out == OutcomeOf(RBGraphCore.AddVertex(old(Value()), name, Character))
    {
      out := AddVertex(name, Character);
    }

    /**
      remove_vertex(v, g): the name leaves the map, the edges at v and v leave
      the graph, and the counter of v's type goes down.
    */
    method RemoveVertex(v: string) returns (out: Outcome)
      modifies this
      ensures Value() == After(RBGraphCore.RemoveVertex(old(Value()), v), old(Value()))
      ensures out == OutcomeOf(RBGraphCore.RemoveVertex(old(Value()), v))
    {
      if v !in vtype {
        return Thrown(VertexMissing);
      }
      var t := vtype[v];
      vtype := vtype - {v};
      edges := DropIncident(edges, v);
      vertices := Without(vertices, v);
      if t == Species {
        numSpecies := Dec(numSpecies);
      } else {
        numCharacters := Dec(numCharacters);
      }
      out := Done;
    }

    /** add_edge(u, w, color, g). */
    method AddEdge(u: string, w: string, col: Color) returns (out: Outcome)
      modifies this
      ensures Value() == After(RBGraphCore.AddEdge(old(Value()), u, w, col), old(Value()))
      ensures out == OutcomeOf(RBGraphCore.AddEdge(old(Value()), u, w, col))
    {
      if u !in vtype || w !in vtype {
        return Thrown(VertexMissing);
      }
      if (u, w) in edges {
        return Thrown(EdgeExists);
      }
      edges := edges[(u, w) := col][(w, u) := col];
      out := Done;
    }

    /** add_edge(u, w, g) without a colour adds a black edge. */
    method AddBlackEdge(u: string, w: string) returns (out: Outcome)
      modifies this
      ensures Value() == After(RBGraphCore.AddEdge(old(Value()), u, w, Black), old(Value()))
      ensures out == OutcomeOf(RBGraphCore.AddEdge(old(Value()), u, w, Black))
    {
      out := AddEdge(u, w, Black);
    }

    /** remove_edge(u, w, g). */
    method RemoveEdge(u: string, w: string) returns (out: Outcome)
      modifies this
      ensures Value() == After(RBGraphCore.RemoveEdge(old(Value()), u, w), old(Value()))
      ensures out == OutcomeOf(RBGraphCore.RemoveEdge(old(Value()), u, w))
    {
      if u !in vtype || w !in vtype {
        return Thrown(VertexMissing);
      }
      if (u, w) !in edges {
        return Thrown(EdgeMissing);
      }
      edges := edges - {(u, w), (w, u)};
      out := Done;
    }

    /** boost::clear_vertex(v, g). */
    method ClearVertex(v: string)
      modifies this
      ensures Value() == RBGraphCore.ClearVertex(old(Value()), v)
    {
      edges := DropIncident(edges, v);
    }

    /** remove_vertex_if(v, predicate, g). */
    method RemoveVertexIf(v: string, cond: Condition)
      requires v in vtype
      modifies this
      ensures Value() == RBGraphOps.RemoveVertexIf(old(Value()), v, cond)
    {
      if Holds(Value(), v, cond) {
        ClearVertex(v);
        var _ := RemoveVertex(v);
      }
    }

    /** remove_singletons(g): remove_vertex_if(v, if_singleton) for each vertex, in order. */
    method RemoveSingletons()
      requires Valid()
      modifies this
      ensures Value() == RBGraphOps.RemoveSingletons(old(Value()))
    {
      ghost var G0 := Value();
      var vs := vertices;
      var i := 0;
      while i < |vs|
        invariant 0 <= i <= |vs| && vs == G0.vertices
        invariant Value() == DropSingletons(G0, vs[..i])
        invariant forall j :: i <= j < |vs| ==> vs[j] in vtype
      {
        DropSingletonsStep(G0, vs, i);
        RemoveVertexIf(vs[i], IfSingleton);
        SingletonsLaterStay(G0, vs, i);
        i := i + 1;
      }
      assert vs[..i] == vs;
    }

    /**
      change_char_type(v, g): collect the targets of v's edges, collect the
      species not among them, clear v, then add a red edge to each of those.
    */
    method ChangeCharType(v: string)
      requires Valid() && v in vtype
      modifies this
      ensures Value() == RBGraphOps.ChangeCharType(old(Value()), v)
    {
      ghost var G0 := Value();
      var red := CollectNonAdjacentSpecies(Value(), v);
      ClearVertex(v);
      ghost var D := edges;
      var j := 0;
      while j < |red|
        invariant 0 <= j <= |red|
        invariant vertices == G0.vertices && vtype == G0.vtype
        invariant numSpecies == G0.numSpecies && numCharacters == G0.numCharacters
        invariant edges == AttachRed(D, v, red[..j])
      {
        AttachRedStep(D, v, red, j);
        edges := edges[(v, red[j]) := Red][(red[j], v) := Red];
        j := j + 1;
      }
      assert red[..j] == red;
    }
  }

  /** The vertices that remove_singletons has not reached yet are still there. */
  lemma SingletonsLaterStay(G: Graph, vs: seq<string>, i: nat)
    requires Valid(G) && vs == G.vertices && i < |vs|
    ensures forall j :: i < j < |vs| ==> vs[j] in DropSingletons(G, vs[..i + 1]).vtype
  {
    DropSingletonsDrops(G, vs[..i + 1]);
    forall j | i < j < |vs| ensures vs[j] !in vs[..i + 1] {
      forall k | 0 <= k <= i ensures vs[k] != vs[j] {
      }
    }
  }

  /**
    The first half of change_char_type: the targets of v's edges, then the
    species of g, in vertex order, that are not among them.
  */
  method CollectNonAdjacentSpecies(G: Graph, v: string) returns (red: seq<string>)
    requires NamesListed(G)
    ensures red == NonAdjacentSpecies(G, v)
  {
    var adjacent := Neighbours(G, v);
    red := [];
    var i := 0;
    while i < |G.vertices|
      invariant 0 <= i <= |G.vertices|
      invariant red == SpeciesAwayFrom(G.vertices[..i], G.vtype, G.edges, v)
    {
      var u := G.vertices[i];
      assert u in G.vtype;
      TakeSnoc(G.vertices, i);
      SpeciesAwayFromSnoc(G.vertices[..i], u, G.vtype, G.edges, v);
      assert (u in adjacent) == ((v, u) in G.edges);
      if G.vtype[u] == Species && !Contains(adjacent, u) {
        red := red + [u];
      }
      i := i + 1;
    }
    assert G.vertices[..i] == G.vertices;
  }
}
