/**
  The rewrites of the red-black graph that are built from the primitive
  operations: change_char_type, remove_vertex_if with its two conditions, and
  remove_singletons.  Each is a function on the graph value; the class in
  rbgraph.dfy performs them in place and is proved equal to them.
*/
module RBGraphOps {
  import opened Seqs
  import opened RBGraphCore

  //---------------------------------------------------------------------------
  // change_char_type

  /** E with a red edge, stored both ways, between v and each vertex of us. */
  function AttachRed(E: map<(string, string), Color>, v: string, us: seq<string>): (r: map<(string, string), Color>)
    ensures forall e :: e in r <==> e in E || (e.0 == v && e.1 in us) || (e.1 == v && e.0 in us)
    ensures forall e :: e in r ==> r[e] == if (e.0 == v && e.1 in us) || (e.1 == v && e.0 in us) then Red else E[e]
  {
    if us == [] then E
    else
      var u := us[|us| - 1];
      assert us == us[..|us| - 1] + [u];
      AttachRed(E, v, us[..|us| - 1])[(v, u) := Red][(u, v) := Red]
  }

  lemma AttachRedStep(E: map<(string, string), Color>, v: string, us: seq<string>, i: nat)
    requires i < |us|
    ensures AttachRed(E, v, us[..i + 1]) == AttachRed(E, v, us[..i])[(v, us[i]) := Red][(us[i], v) := Red]
  {
    assert us[..i + 1][..i] == us[..i];
  }

  /** The species of vs that E does not join to v, in order. */
  function SpeciesAwayFrom(vs: seq<string>, vtype: map<string, Type>, E: map<(string, string), Color>, v: string): (r: seq<string>)
    ensures forall w :: w in r <==> w in vs && w in vtype && vtype[w] == Species && (v, w) !in E
  {
    if vs == [] then []
    else
      var w := vs[|vs| - 1];
      assert vs == vs[..|vs| - 1] + [w];
      SpeciesAwayFrom(vs[..|vs| - 1], vtype, E, v) + (if w in vtype && vtype[w] == Species && (v, w) !in E then [w] else [])
  }

  lemma SpeciesAwayFromSnoc(vs: seq<string>, w: string, vtype: map<string, Type>, E: map<(string, string), Color>, v: string)
    ensures SpeciesAwayFrom(vs + [w], vtype, E, v)
         == SpeciesAwayFrom(vs, vtype, E, v) + (if w in vtype && vtype[w] == Species && (v, w) !in E then [w] else [])
  {
    assert (vs + [w])[..|vs|] == vs;
  }

  /** The species not adjacent to v, in vertex order. */
  function NonAdjacentSpecies(G: Graph, v: string): seq<string>
  {
    SpeciesAwayFrom(G.vertices, G.vtype, G.edges, v)
  }

  /**
    change_char_type(v): every edge at v goes, and v gets a red edge to each
    species it was not adjacent to.
  */
  function ChangeCharType(G: Graph, v: string): Graph
  {
    G.(edges := AttachRed(DropIncident(G.edges, v), v, NonAdjacentSpecies(G, v)))
  }

  /**
    After change_char_type(v), v is adjacent exactly to the species it was not
    adjacent to before, by red edges; the other edges and the vertices stay.
  */
  lemma ChangeCharTypeSwaps(G: Graph, v: string)
    requires Valid(G) && v in G.vtype
    ensures var G' := ChangeCharType(G, v);
      && Valid(G') && G'.vertices == G.vertices && G'.vtype == G.vtype
      && G'.numSpecies == G.numSpecies && G'.numCharacters == G.numCharacters
      && (forall w :: (v, w) in G'.edges <==> w in G.vtype && G.vtype[w] == Species && (v, w) !in G.edges)
      && (forall w :: (v, w) in G'.edges ==> G'.edges[(v, w)] == Red)
      && (forall e: (string, string) :: e.0 != v && e.1 != v ==> (e in G'.edges <==> e in G.edges))
      && (forall e: (string, string) :: e.0 != v && e.1 != v && e in G.edges ==> G'.edges[e] == G.edges[e])
  {
    var E := AttachRed(DropIncident(G.edges, v), v, NonAdjacentSpecies(G, v));
    AttachRedSymmetric(DropIncident(G.edges, v), v, NonAdjacentSpecies(G, v), G);
    EdgesOnlyChange(G, E);
  }

  lemma AttachRedSymmetric(D: map<(string, string), Color>, v: string, us: seq<string>, G: Graph)
    requires Valid(G) && v in G.vtype && D == DropIncident(G.edges, v)
    requires forall u :: u in us ==> u in G.vtype
    ensures SymmetricMap(AttachRed(D, v, us))
    ensures forall e :: e in AttachRed(D, v, us) ==> e.0 in G.vtype && e.1 in G.vtype
  {
    var r := AttachRed(D, v, us);
    forall a, b | (a, b) in r ensures (b, a) in r && r[(b, a)] == r[(a, b)] {
      if !((a == v && b in us) || (b == v && a in us)) {
        assert (a, b) in G.edges;
      }
    }
  }

  /**
    change_char_type keeps every character's edges of one colour: v's new
    edges are all red, and a character other than v keeps the edges it had
    away from v.
  */
  lemma ChangeCharTypeKeepsUniform(G: Graph, v: string)
    requires Valid(G) && UniformColours(G) && v in G.vtype
    ensures UniformColours(ChangeCharType(G, v))
  {
    ChangeCharTypeSwaps(G, v);
    var G' := ChangeCharType(G, v);
    forall c | c in G'.vtype && G'.vtype[c] == Character && c != v
      ensures AllIncident(G', c, Black) || AllIncident(G', c, Red)
    {
      assert (v, c) !in G'.edges;
      assert AllIncident(G, c, Black) ==> AllIncident(G', c, Black);
      assert AllIncident(G, c, Red) ==> AllIncident(G', c, Red);
    }
  }

  /** A character whose type is changed becomes active: all its edges are red. */
  lemma ChangedCharacterIsActive(G: Graph, v: string)
    requires Valid(G) && v in G.vtype
    ensures Active(ChangeCharType(G, v), v) <==> G.vtype[v] == Character || forall w :: (v, w) !in ChangeCharType(G, v).edges
  {
    ChangeCharTypeSwaps(G, v);
  }

  /**
    Changing the type of a character twice gives it back its neighbours when
    they are all species (the colour is red from then on).
  */
  lemma ChangeCharTypeTwice(G: Graph, v: string)
    requires Valid(G) && Bipartite(G) && v in G.vtype && G.vtype[v] == Character
    ensures forall w :: (v, w) in ChangeCharType(ChangeCharType(G, v), v).edges <==> (v, w) in G.edges
  {
    ChangeCharTypeSwaps(G, v);
    ChangeCharTypeSwaps(ChangeCharType(G, v), v);
  }

  //---------------------------------------------------------------------------
  // clear_vertex and remove_vertex_if

  /** boost::clear_vertex keeps a valid graph valid, and removing v afterwards is removing v. */
  lemma ClearVertexThenRemove(G: Graph, v: string)
    requires Valid(G) && v in G.vtype
    ensures Valid(ClearVertex(G, v))
    ensures forall w :: (v, w) !in ClearVertex(G, v).edges
    ensures RemoveVertex(ClearVertex(G, v), v) == RemoveVertex(G, v)
  {
    var D := DropIncident(G.edges, v);
    forall a, b | (a, b) in D ensures (b, a) in D && D[(b, a)] == D[(a, b)] {
      assert (a, b) in G.edges;
    }
    EdgesOnlyChange(G, D);
    assert DropIncident(D, v) == D;
  }

  /** The functors passed to remove_vertex_if. */
  datatype Condition = IfSingleton | IfNotMaximal(maximal: Option<seq<string>>)

  /** contains(list, v): a linear search of the list. */
  function Contains(list: seq<string>, v: string): (b: bool)
    ensures b <==> v in list
  {
    if list == [] then false
    else list[0] == v || Contains(list[1..], v)
  }

  /**
    if_singleton holds for a vertex of out-degree zero; if_not_maximal is false
    without a list, and otherwise holds for a vertex missing from the list.
  */
  function Holds(G: Graph, v: string, cond: Condition): bool
  {
    match cond
    case IfSingleton => Degree(G, v) == 0
    case IfNotMaximal(cm) => if cm.None? then false else !Contains(cm.value, v)
  }

  /** if_singleton holds exactly for a vertex without incident edges. */
  lemma IfSingletonHolds(G: Graph, v: string)
    requires WellFormed(G)
    ensures Holds(G, v, IfSingleton) <==> forall w :: (v, w) !in G.edges
  {
    SingletonHasNoEdges(G, v);
  }

  /** if_not_maximal is false without a list, and otherwise holds off the list. */
  lemma IfNotMaximalHolds(G: Graph, v: string, cm: Option<seq<string>>)
    ensures Holds(G, v, IfNotMaximal(cm)) <==> cm.Some? && v !in cm.value
  {
  }

  /** remove_vertex_if(v, p): when p holds, clear v and remove it. */
  function RemoveVertexIf(G: Graph, v: string, cond: Condition): Graph
    requires v in G.vtype
  {
    if Holds(G, v, cond) then RemoveVertex(ClearVertex(G, v), v).value else G
  }

  /** remove_vertex_if removes v and its edges exactly when the condition holds. */
  lemma RemoveVertexIfRemoves(G: Graph, v: string, cond: Condition)
    requires Valid(G) && v in G.vtype
    ensures var G' := RemoveVertexIf(G, v, cond);
      && Valid(G')
      && (Holds(G, v, cond) ==> G' == RemoveVertex(G, v).value && v !in G'.vtype)
      && (!Holds(G, v, cond) ==> G' == G)
  {
    if Holds(G, v, cond) {
      ClearVertexThenRemove(G, v);
      RemoveVertexRemoves(G, v);
    }
  }

  //---------------------------------------------------------------------------
  // remove_singletons

  /** One step of remove_singletons: v goes when it is still there and has no edge. */
  function DropIfSingleton(G: Graph, v: string): Graph
  {
    if v in G.vtype then RemoveVertexIf(G, v, IfSingleton) else G
  }

  /** remove_vertex_if(v, if_singleton) for each v of vs, in order. */
  function DropSingletons(G: Graph, vs: seq<string>): Graph
  {
    if vs == [] then G
    else DropIfSingleton(DropSingletons(G, vs[..|vs| - 1]), vs[|vs| - 1])
  }

  lemma DropSingletonsStep(G: Graph, vs: seq<string>, i: nat)
    requires i < |vs|
    ensures DropSingletons(G, vs[..i + 1]) == DropIfSingleton(DropSingletons(G, vs[..i]), vs[i])
  {
    assert vs[..i + 1][..i] == vs[..i];
  }

  /** remove_singletons(g): every vertex of g is visited once, in order. */
  function RemoveSingletons(G: Graph): Graph
  {
    DropSingletons(G, G.vertices)
  }

  ghost predicate HasIncidentEdge(G: Graph, v: string)
  {
    exists w :: (v, w) in G.edges
  }

  /**
    Removing the singletons of vs keeps the edges and the graph valid, and drops
    from vs exactly the vertices without an edge.
  */
  lemma {:induction false} DropSingletonsDrops(G: Graph, vs: seq<string>)
    requires Valid(G)
    ensures var G' := DropSingletons(G, vs);
      && Valid(G') && G'.edges == G.edges
      && (forall w :: w in G'.vtype <==> w in G.vtype && (w in vs ==> HasIncidentEdge(G, w)))
      && (forall w :: w in G'.vtype ==> G'.vtype[w] == G.vtype[w])
  {
    if vs != [] {
      var init := vs[..|vs| - 1];
      var v := vs[|vs| - 1];
      DropSingletonsDrops(G, init);
      var H := DropSingletons(G, init);
      if v in H.vtype {
        IfSingletonHolds(H, v);
        RemoveVertexIfRemoves(H, v, IfSingleton);
        DropSingletonStep(G, H, v);
      }
      Snoc(vs);
    }
  }

  lemma DropSingletonStep(G: Graph, H: Graph, v: string)
    requires WellFormed(H) && v in H.vtype && H.edges == G.edges
    ensures var H' := RemoveVertexIf(H, v, IfSingleton);
      H'.edges == H.edges && H'.vtype == if HasIncidentEdge(G, v) then H.vtype else H.vtype - {v}
  {
    IfSingletonHolds(H, v);
    if Holds(H, v, IfSingleton) {
      forall w ensures (w, v) !in H.edges {
        assert (w, v) in H.edges ==> (v, w) in H.edges;
      }
      DropIncidentUntouched(H.edges, v);
      DropIncidentUntouched(DropIncident(H.edges, v), v);
    }
  }

  /** Dropping the edges at v changes nothing when no edge touches v. */
  lemma DropIncidentUntouched(E: map<(string, string), Color>, v: string)
    requires forall w :: (v, w) !in E && (w, v) !in E
    ensures DropIncident(E, v) == E
  {
    forall e | e in E ensures e.0 != v && e.1 != v {
      assert (e.0, e.1) in E;
    }
  }

  /** remove_singletons keeps every character's edges of one colour. */
  lemma RemoveSingletonsKeepsUniform(G: Graph)
    requires Valid(G) && UniformColours(G)
    ensures UniformColours(RemoveSingletons(G))
  {
    DropSingletonsDrops(G, G.vertices);
    UniformSubgraph(G, RemoveSingletons(G));
  }

  /**
    remove_singletons keeps the edges and exactly the vertices that have one;
    afterwards no vertex is a singleton.
  */
  lemma RemoveSingletonsKeepsEdged(G: Graph)
    requires Valid(G)
    ensures var G' := RemoveSingletons(G);
      && Valid(G') && G'.edges == G.edges
      && (forall w :: w in G'.vtype <==> w in G.vtype && HasIncidentEdge(G, w))
      && (forall w :: w in G'.vtype ==> Degree(G', w) > 0)
  {
    DropSingletonsDrops(G, G.vertices);
    var G' := RemoveSingletons(G);
    forall w | w in G'.vtype ensures Degree(G', w) > 0 {
      SingletonHasNoEdges(G', w);
    }
  }
}
