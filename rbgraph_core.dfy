/**
  The red-black graph of a persistent-phylogeny instance, as a value.

  A red-black graph is a bipartite graph on species and characters whose edges
  are black (the character is inactive) or red (the character is active).  A
  vertex is known by its name: the graph keeps a name -> vertex map and refuses
  a second vertex with the same name, so names identify vertices.  Edges are
  undirected and are stored under both orientations.
*/
module RBGraphCore {
  import opened Seqs

  datatype Type = Species | Character

  datatype Color = Black | Red

  /** Why an operation on the graph throws. */
  datatype Failure = VertexExists | VertexMissing | EdgeExists | EdgeMissing

  /** The largest size_t: the counters are size_t, and a decrement at zero wraps. */
  const SizeMax: nat := 0xFFFF_FFFF_FFFF_FFFF

  function Dec(n: nat): nat
  {
    if n == 0 then SizeMax else n - 1
  }

  /**
    The vertex list in storage order, each vertex's type, the coloured edges,
    and the two counters kept in the graph bundle.
  */
  datatype Graph = Graph(vertices: seq<string>, vtype: map<string, Type>,
                         edges: map<(string, string), Color>,
                         numSpecies: nat, numCharacters: nat)

  /** Names are unique, every edge joins two vertices, and edges are stored both ways. */
  ghost predicate WellFormed(G: Graph)
  {
    Distinct(G.vertices) && NamesListed(G) && EdgesInside(G) && Symmetric(G)
  }

  /** The typed names are exactly the listed vertices. */
  ghost predicate NamesListed(G: Graph)
  {
    forall v :: v in G.vtype <==> v in G.vertices
  }

  /** Every edge has both ends in the graph. */
  ghost predicate EdgesInside(G: Graph)
  {
    forall e :: e in G.edges ==> e.0 in G.vtype && e.1 in G.vtype
  }

  /** An undirected edge is stored under both orientations, with one colour. */
  ghost predicate Symmetric(G: Graph)
  {
    SymmetricMap(G.edges)
  }

  ghost predicate SymmetricMap(E: map<(string, string), Color>)
  {
    forall u, w :: (u, w) in E ==> (w, u) in E && E[(w, u)] == E[(u, w)]
  }

  /** The vertices of vs whose type is t, in order. */
  function OfType(vs: seq<string>, vtype: map<string, Type>, t: Type): (r: seq<string>)
    ensures forall w :: w in r <==> w in vs && w in vtype && vtype[w] == t
  {
    if vs == [] then []
    else
      var w := vs[|vs| - 1];
      assert vs == vs[..|vs| - 1] + [w];
      OfType(vs[..|vs| - 1], vtype, t) + (if w in vtype && vtype[w] == t then [w] else [])
  }

  /** The vertices of vs joined to v by an edge of E, in order. */
  function Adjacent(vs: seq<string>, E: map<(string, string), Color>, v: string): (r: seq<string>)
    ensures forall w :: w in r <==> w in vs && (v, w) in E
  {
    if vs == [] then []
    else
      var w := vs[|vs| - 1];
      assert vs == vs[..|vs| - 1] + [w];
      Adjacent(vs[..|vs| - 1], E, v) + (if (v, w) in E then [w] else [])
  }

  /** vs without v. */
  function Without(vs: seq<string>, v: string): (r: seq<string>)
    ensures forall w :: w in r <==> w in vs && w != v
  {
    if vs == [] then []
    else
      var w := vs[|vs| - 1];
      assert vs == vs[..|vs| - 1] + [w];
      Without(vs[..|vs| - 1], v) + (if w == v then [] else [w])
  }

  /** The species of vs that lie in S, in order. */
  function SpeciesIn(vs: seq<string>, vtype: map<string, Type>, S: set<string>): (r: seq<string>)
    ensures forall w :: w in r <==> w in vs && w in S && w in vtype && vtype[w] == Species
  {
    if vs == [] then []
    else
      var w := vs[|vs| - 1];
      assert vs == vs[..|vs| - 1] + [w];
      SpeciesIn(vs[..|vs| - 1], vtype, S) + (if w in S && w in vtype && vtype[w] == Species then [w] else [])
  }

  /** The two counters agree with the vertex list. */
  ghost predicate Valid(G: Graph)
  {
    && WellFormed(G)
    && G.numSpecies == |OfType(G.vertices, G.vtype, Species)|
    && G.numCharacters == |OfType(G.vertices, G.vtype, Character)|
  }

  /** Every edge joins a species and a character. */
  ghost predicate Bipartite(G: Graph)
  {
    forall u, w :: (u, w) in G.edges ==> u in G.vtype && w in G.vtype && G.vtype[u] != G.vtype[w]
  }

  /** The edges at v, read from v's end, all have colour col. */
  ghost predicate AllIncident(G: Graph, v: string, col: Color)
  {
    forall w :: (v, w) in G.edges ==> G.edges[(v, w)] == col
  }

  /**
    The documented edge-colour invariant: every character is incident only on
    black edges (it is inactive) or only on red edges (it is active).
  */
  ghost predicate UniformColours(G: Graph)
  {
    forall c :: c in G.vtype && G.vtype[c] == Character ==> AllIncident(G, c, Black) || AllIncident(G, c, Red)
  }

  /** The neighbours of v, in vertex order (the targets of v's out-edges). */
  function Neighbours(G: Graph, v: string): seq<string>
  {
    Adjacent(G.vertices, G.edges, v)
  }

  /** out_degree(v). */
  function Degree(G: Graph, v: string): nat
  {
    |Neighbours(G, v)|
  }

  /** Keeping the vertices of type t splits a list whose vertices all have a type. */
  lemma {:induction false} TypesSplit(vs: seq<string>, vtype: map<string, Type>)
    requires forall w :: w in vs ==> w in vtype
    ensures |OfType(vs, vtype, Species)| + |OfType(vs, vtype, Character)| == |vs|
  {
    if vs != [] {
      TypesSplit(vs[..|vs| - 1], vtype);
    }
  }

  /** num_species + num_characters is the number of vertices. */
  lemma CountersCoverVertices(G: Graph)
    requires Valid(G)
    ensures G.numSpecies + G.numCharacters == |G.vertices|
  {
    TypesSplit(G.vertices, G.vtype);
  }

  /** if_singleton: a vertex with no incident edge. */
  lemma SingletonHasNoEdges(G: Graph, v: string)
    requires WellFormed(G)
    ensures Degree(G, v) == 0 <==> forall w :: (v, w) !in G.edges
  {
    forall w | (v, w) in G.edges
      ensures w in Neighbours(G, v)
    {
    }
    if Degree(G, v) != 0 {
      assert Neighbours(G, v)[0] in Neighbours(G, v);
    }
  }

  //---------------------------------------------------------------------------
  // Connected components

  /** S together with every vertex one edge away from it. */
  function Expand(G: Graph, S: set<string>): set<string>
  {
    S + set e | e in G.edges && e.0 in S :: e.1
  }

  /** Expand S until nothing changes or the fuel runs out. */
  function Reach(G: Graph, S: set<string>, fuel: nat): set<string>
    decreases fuel
  {
    if fuel == 0 then S
    else
      var S' := Expand(G, S);
      if S' == S then S else Reach(G, S', fuel - 1)
  }

  /** The vertices of v's connected component. */
  function Component(G: Graph, v: string): set<string>
  {
    Reach(G, {v}, |G.vtype|)
  }

  /** No edge leaves S. */
  ghost predicate Closed(G: Graph, S: set<string>)
  {
    forall e :: e in G.edges && e.0 in S ==> e.1 in S
  }

  lemma {:induction false} ReachClosed(G: Graph, S: set<string>, fuel: nat)
    requires EdgesInside(G)
    requires S <= G.vtype.Keys && |G.vtype.Keys - S| <= fuel
    ensures S <= Reach(G, S, fuel) <= G.vtype.Keys
    ensures Closed(G, Reach(G, S, fuel))
    decreases fuel
  {
    if Expand(G, S) == S {
      FixpointClosed(G, S);
    } else if fuel == 0 {
      ExhaustedClosed(G, S);
    } else {
      ExpandShrinksRest(G, S);
      ReachClosed(G, Expand(G, S), fuel - 1);
    }
  }

  lemma FixpointClosed(G: Graph, S: set<string>)
    requires Expand(G, S) == S
    ensures Closed(G, S)
  {
    forall e | e in G.edges && e.0 in S ensures e.1 in S {
      assert e.1 in Expand(G, S);
    }
  }

  lemma ExhaustedClosed(G: Graph, S: set<string>)
    requires EdgesInside(G) && S <= G.vtype.Keys && |G.vtype.Keys - S| == 0
    ensures Closed(G, S)
  {
    forall e | e in G.edges && e.0 in S ensures e.1 in S {
      assert e.1 !in G.vtype.Keys - S;
    }
  }

  lemma ExpandShrinksRest(G: Graph, S: set<string>)
    requires EdgesInside(G) && S <= G.vtype.Keys && Expand(G, S) != S
    ensures Expand(G, S) <= G.vtype.Keys
    ensures |G.vtype.Keys - Expand(G, S)| < |G.vtype.Keys - S|
  {
    var K := G.vtype.Keys;
    var S' := Expand(G, S);
    ExpandInside(G, S);
    var x :| x in S' && x !in S;
    SubsetCard(K - S', (K - S) - {x});
    assert |(K - S) - {x}| == |K - S| - 1;
  }

  lemma ExpandInside(G: Graph, S: set<string>)
    requires EdgesInside(G) && S <= G.vtype.Keys
    ensures S <= Expand(G, S) <= G.vtype.Keys
  {
    forall y | y in Expand(G, S) ensures y in G.vtype {
      if y !in S {
        var e :| e in G.edges && e.0 in S && e.1 == y;
      }
    }
  }

  /** Component(G, v) holds v, lies in the graph, and no edge leaves it. */
  lemma ComponentClosed(G: Graph, v: string)
    requires WellFormed(G) && v in G.vtype
    ensures v in Component(G, v) && Component(G, v) <= G.vtype.Keys
    ensures Closed(G, Component(G, v))
  {
    assert |G.vtype.Keys - {v}| == |G.vtype.Keys| - 1;
    ReachClosed(G, {v}, |G.vtype|);
  }

  /** A walk along edges. */
  ghost predicate IsPath(G: Graph, p: seq<string>)
  {
    |p| > 0 && p[0] in G.vtype && forall i :: 0 <= i < |p| - 1 ==> (p[i], p[i + 1]) in G.edges
  }

  /** The reachability relation that connected_components computes. */
  ghost predicate Connected(G: Graph, u: string, w: string)
  {
    exists p :: IsPath(G, p) && p[0] == u && p[|p| - 1] == w
  }

  lemma {:induction false} PathStaysInside(G: Graph, S: set<string>, p: seq<string>, k: nat)
    requires Closed(G, S) && IsPath(G, p) && p[0] in S && k < |p|
    ensures p[k] in S
  {
    if k > 0 {
      PathStaysInside(G, S, p, k - 1);
      assert (p[k - 1], p[k]) in G.edges;
    }
  }

  lemma {:induction false} ReachConnected(G: Graph, v: string, S: set<string>, fuel: nat)
    requires forall x :: x in S ==> Connected(G, v, x)
    ensures forall x :: x in Reach(G, S, fuel) ==> Connected(G, v, x)
    decreases fuel
  {
    if fuel > 0 && Expand(G, S) != S {
      forall x | x in Expand(G, S) ensures Connected(G, v, x) {
        if x !in S {
          var e :| e in G.edges && e.0 in S && e.1 == x;
          var p :| IsPath(G, p) && p[0] == v && p[|p| - 1] == e.0;
          var q := p + [x];
          assert forall i :: 0 <= i < |q| - 1 ==> (q[i], q[i + 1]) in G.edges by {
            forall i | 0 <= i < |q| - 1 ensures (q[i], q[i + 1]) in G.edges {
              if i < |p| - 1 {
                assert q[i] == p[i] && q[i + 1] == p[i + 1];
              }
            }
          }
          assert IsPath(G, q) && q[0] == v && q[|q| - 1] == x;
        }
      }
      ReachConnected(G, v, Expand(G, S), fuel - 1);
    }
  }

  /** The component of v is exactly the set of vertices connected to v. */
  lemma ComponentIsConnectivity(G: Graph, v: string, w: string)
    requires WellFormed(G) && v in G.vtype
    ensures w in Component(G, v) <==> Connected(G, v, w)
  {
    ComponentClosed(G, v);
    if Connected(G, v, w) {
      var p :| IsPath(G, p) && p[0] == v && p[|p| - 1] == w;
      PathStaysInside(G, Component(G, v), p, |p| - 1);
    }
    assert IsPath(G, [v]);
    ReachConnected(G, v, {v}, |G.vtype|);
  }

  /** D(v): the species of v's component, in vertex order. */
  function ComponentSpecies(G: Graph, v: string): seq<string>
  {
    SpeciesIn(G.vertices, G.vtype, Component(G, v))
  }

  lemma OfTypeSnoc(vs: seq<string>, w: string, vtype: map<string, Type>, t: Type)
    ensures OfType(vs + [w], vtype, t) == OfType(vs, vtype, t) + (if w in vtype && vtype[w] == t then [w] else [])
  {
    assert (vs + [w])[..|vs|] == vs;
  }

  lemma SpeciesInSnoc(vs: seq<string>, w: string, vtype: map<string, Type>, S: set<string>)
    ensures SpeciesIn(vs + [w], vtype, S) == SpeciesIn(vs, vtype, S) + (if w in S && w in vtype && vtype[w] == Species then [w] else [])
  {
    assert (vs + [w])[..|vs|] == vs;
  }

  lemma {:induction false} AdjacentDistinct(vs: seq<string>, E: map<(string, string), Color>, v: string)
    requires Distinct(vs)
    ensures Distinct(Adjacent(vs, E, v))
  {
    if vs != [] {
      var init := vs[..|vs| - 1];
      assert vs == init + [vs[|vs| - 1]];
      DistinctSnoc(init, vs[|vs| - 1]);
      AdjacentDistinct(init, E, v);
      DistinctSnoc(Adjacent(init, E, v), vs[|vs| - 1]);
    }
  }

  lemma {:induction false} SpeciesInDistinct(vs: seq<string>, vtype: map<string, Type>, S: set<string>)
    requires Distinct(vs)
    ensures Distinct(SpeciesIn(vs, vtype, S))
  {
    if vs != [] {
      var init := vs[..|vs| - 1];
      assert vs == init + [vs[|vs| - 1]];
      DistinctSnoc(init, vs[|vs| - 1]);
      SpeciesInDistinct(init, vtype, S);
      DistinctSnoc(SpeciesIn(init, vtype, S), vs[|vs| - 1]);
    }
  }

  //---------------------------------------------------------------------------
  // Activity and universality

  /**
    is_active: a character is active when all its edges are red, a species when
    none of its edges is red; a vertex without edges is active.
  */
  ghost predicate Active(G: Graph, v: string)
    requires v in G.vtype
  {
    if G.vtype[v] == Character then AllIncident(G, v, Red) else AllIncident(G, v, Black)
  }

  /**
    is_red_universal: a character whose edges are all red and whose degree is the
    number of species in its own connected component.
  */
  ghost predicate RedUniversal(G: Graph, v: string)
  {
    v in G.vtype && G.vtype[v] == Character && AllIncident(G, v, Red)
    && Degree(G, v) == |ComponentSpecies(G, v)|
  }

  /** is_universal: the same with black edges. */
  ghost predicate Universal(G: Graph, v: string)
  {
    v in G.vtype && G.vtype[v] == Character && AllIncident(G, v, Black)
    && Degree(G, v) == |ComponentSpecies(G, v)|
  }

  /**
    In a bipartite graph, a character's degree equals the number of species of
    its component exactly when it is adjacent to every one of them.
  */
  lemma DegreeCountsComponent(G: Graph, v: string)
    requires WellFormed(G) && Bipartite(G) && v in G.vtype && G.vtype[v] == Character
    ensures Degree(G, v) == |ComponentSpecies(G, v)| <==>
            forall s :: s in ComponentSpecies(G, v) <==> (v, s) in G.edges
  {
    var N := Neighbours(G, v);
    var D := ComponentSpecies(G, v);
    AdjacentDistinct(G.vertices, G.edges, v);
    SpeciesInDistinct(G.vertices, G.vtype, Component(G, v));
    ComponentClosed(G, v);
    forall s | s in N ensures s in D {
      assert (v, s) in G.edges;
    }
    if |N| == |D| {
      SameLengthSameElements(N, D);
    }
    if forall s :: s in D <==> (v, s) in G.edges {
      SameElementsSameLength(N, D);
    }
  }

  //---------------------------------------------------------------------------
  // Operations on the graph value; a throwing operation returns Fail

  datatype Result<T> = Ok(value: T) | Fail(reason: Failure)

  datatype Option<T> = None | Some(value: T)

  /** clear(g) as written: vertices, edges and names go, the counters stay. */
  function ClearAsWritten(G: Graph): Graph
  {
    Graph([], map[], map[], G.numSpecies, G.numCharacters)
  }

  /** clear(g) with the counters reset to zero. */
  function Clear(G: Graph): Graph
  {
    Graph([], map[], map[], 0, 0)
  }

  /** A cleared graph that had a vertex keeps counting it. */
  lemma ClearLeavesStaleCounters(G: Graph)
    requires Valid(G) && G.vertices != []
    ensures ClearAsWritten(G).vertices == [] && !Valid(ClearAsWritten(G))
  {
    CountersCoverVertices(G);
  }

  /** The corrected clear leaves the empty graph, whose counters are right. */
  lemma ClearEmpties(G: Graph)
    ensures Valid(Clear(G)) && Clear(G).vertices == [] && Clear(G).edges == map[]
  {
  }

  /** add_vertex: a fresh name becomes a new last vertex of the given type. */
  function AddVertex(G: Graph, name: string, t: Type): Result<Graph>
  {
    if name in G.vtype then Fail(VertexExists)
    else
      Ok(Graph(G.vertices + [name], G.vtype[name := t], G.edges,
               if t == Species then G.numSpecies + 1 else G.numSpecies,
               if t == Character then G.numCharacters + 1 else G.numCharacters))
  }

  lemma AddVertexAdds(G: Graph, name: string, t: Type)
    requires Valid(G)
    ensures AddVertex(G, name, t).Fail? <==> name in G.vtype
    ensures name !in G.vtype ==>
      var G' := AddVertex(G, name, t).value;
      && Valid(G') && G'.vertices == G.vertices + [name] && G'.vtype == G.vtype[name := t]
      && G'.edges == G.edges
      && G'.numSpecies == G.numSpecies + (if t == Species then 1 else 0)
      && G'.numCharacters == G.numCharacters + (if t == Character then 1 else 0)
  {
    if name !in G.vtype {
      AddedVertexValid(G, name, t);
    }
  }

  lemma AddedVertexValid(G: Graph, name: string, t: Type)
    requires Valid(G) && name !in G.vtype
    ensures Valid(Graph(G.vertices + [name], G.vtype[name := t], G.edges,
                        if t == Species then G.numSpecies + 1 else G.numSpecies,
                        if t == Character then G.numCharacters + 1 else G.numCharacters))
  {
    var G' := Graph(G.vertices + [name], G.vtype[name := t], G.edges,
                    if t == Species then G.numSpecies + 1 else G.numSpecies,
                    if t == Character then G.numCharacters + 1 else G.numCharacters);
    assert name !in G.vertices;
    DistinctSnoc(G.vertices, name);
    AddedVertexCount(G.vertices, G.vtype, name, t, Species);
    AddedVertexCount(G.vertices, G.vtype, name, t, Character);
    AddedVertexListed(G, G', name, t);
    AddedVertexEdgesInside(G, G', name, t);
    ValidIntro(G');
  }

  lemma ValidIntro(G: Graph)
    requires Distinct(G.vertices) && NamesListed(G) && EdgesInside(G) && Symmetric(G)
    requires G.numSpecies == |OfType(G.vertices, G.vtype, Species)|
    requires G.numCharacters == |OfType(G.vertices, G.vtype, Character)|
    ensures Valid(G)
  {
  }

  lemma AddedVertexCount(vs: seq<string>, vtype: map<string, Type>, name: string, t: Type, t': Type)
    requires name !in vs
    ensures |OfType(vs + [name], vtype[name := t], t')| == |OfType(vs, vtype, t')| + (if t == t' then 1 else 0)
  {
    OfTypeUpdate(vs, vtype, name, t, t');
    OfTypeSnoc(vs, name, vtype[name := t], t');
  }

  lemma AddedVertexListed(G: Graph, G': Graph, name: string, t: Type)
    requires NamesListed(G)
    requires G'.vertices == G.vertices + [name] && G'.vtype == G.vtype[name := t]
    ensures NamesListed(G')
  {
  }

  lemma AddedVertexEdgesInside(G: Graph, G': Graph, name: string, t: Type)
    requires EdgesInside(G)
    requires G'.edges == G.edges && G'.vtype == G.vtype[name := t]
    ensures EdgesInside(G')
  {
  }

  lemma {:induction false} OfTypeUpdate(vs: seq<string>, vtype: map<string, Type>, v: string, t: Type, t': Type)
    requires v !in vs
    ensures OfType(vs, vtype[v := t], t') == OfType(vs, vtype, t')
  {
    if vs != [] {
      OfTypeUpdate(vs[..|vs| - 1], vtype, v, t, t');
    }
  }

  lemma {:induction false} OfTypeRestrict(vs: seq<string>, vtype: map<string, Type>, v: string, t: Type)
    requires v !in vs
    ensures OfType(vs, vtype - {v}, t) == OfType(vs, vtype, t)
  {
    if vs != [] {
      OfTypeRestrict(vs[..|vs| - 1], vtype, v, t);
    }
  }

  lemma {:induction false} WithoutAbsent(vs: seq<string>, v: string)
    requires v !in vs
    ensures Without(vs, v) == vs
  {
    if vs != [] {
      WithoutAbsent(vs[..|vs| - 1], v);
      assert vs == vs[..|vs| - 1] + [vs[|vs| - 1]];
    }
  }

  /** Removing a present vertex from a list without repeats. */
  lemma {:induction false} WithoutShape(vs: seq<string>, v: string)
    requires Distinct(vs) && v in vs
    ensures |Without(vs, v)| == |vs| - 1 && Distinct(Without(vs, v))
  {
    var init := vs[..|vs| - 1];
    var w := vs[|vs| - 1];
    assert vs == init + [w];
    DistinctSnoc(init, w);
    if w == v {
      WithoutAbsent(init, v);
    } else {
      WithoutShape(init, v);
      var X := Without(init, v);
      assert Without(vs, v) == X + [w];
      DistinctSnoc(X, w);
    }
  }

  /** Removing a present vertex drops it from the count of its type only. */
  lemma {:induction false} WithoutCounts(vs: seq<string>, vtype: map<string, Type>, v: string, t: Type)
    requires Distinct(vs) && v in vs && v in vtype
    ensures |OfType(Without(vs, v), vtype - {v}, t)| + (if vtype[v] == t then 1 else 0) == |OfType(vs, vtype, t)|
  {
    var init := vs[..|vs| - 1];
    var w := vs[|vs| - 1];
    assert vs == init + [w];
    DistinctSnoc(init, w);
    var here := if w in vtype && vtype[w] == t then [w] else [];
    assert OfType(vs, vtype, t) == OfType(init, vtype, t) + here;
    if w == v {
      WithoutAbsent(init, v);
      OfTypeRestrict(init, vtype, v, t);
      assert Without(vs, v) == init;
    } else {
      WithoutCounts(init, vtype, v, t);
      var X := Without(init, v);
      assert Without(vs, v) == X + [w];
      OfTypeSnoc(X, w, vtype - {v}, t);
      assert (w in vtype - {v} && (vtype - {v})[w] == t) == (w in vtype && vtype[w] == t);
    }
  }

  /** The edges that do not touch v. */
  function DropIncident(E: map<(string, string), Color>, v: string): map<(string, string), Color>
  {
    map e | e in E && e.0 != v && e.1 != v :: E[e]
  }

  /**
    remove_vertex: the name leaves the map, the vertex and its edges leave the
    graph, and the counter of the vertex's type goes down.
  */
  function RemoveVertex(G: Graph, v: string): Result<Graph>
  {
    if v !in G.vtype then Fail(VertexMissing)
    else
      var t := G.vtype[v];
      Ok(Graph(Without(G.vertices, v), G.vtype - {v}, DropIncident(G.edges, v),
               if t == Species then Dec(G.numSpecies) else G.numSpecies,
               if t == Character then Dec(G.numCharacters) else G.numCharacters))
  }

  lemma RemoveVertexRemoves(G: Graph, v: string)
    requires Valid(G)
    ensures RemoveVertex(G, v).Fail? <==> v !in G.vtype
    ensures v in G.vtype ==>
      var G' := RemoveVertex(G, v).value;
      && Valid(G') && |G'.vertices| == |G.vertices| - 1
      && (forall w :: w in G'.vertices <==> w in G.vertices && w != v)
      && G'.vtype == G.vtype - {v}
      && (forall e :: e in G'.edges <==> e in G.edges && e.0 != v && e.1 != v)
      && G'.numSpecies == G.numSpecies - (if G.vtype[v] == Species then 1 else 0)
      && G'.numCharacters == G.numCharacters - (if G.vtype[v] == Character then 1 else 0)
  {
    if v in G.vtype {
      WithoutShape(G.vertices, v);
      WithoutCounts(G.vertices, G.vtype, v, Species);
      WithoutCounts(G.vertices, G.vtype, v, Character);
    }
  }

  /**
    A graph whose edges and typed vertices are among those of G, with the same
    colours and types, keeps every character's edges of one colour.
  */
  lemma UniformSubgraph(G: Graph, G': Graph)
    requires UniformColours(G)
    requires forall w :: w in G'.vtype ==> w in G.vtype && G'.vtype[w] == G.vtype[w]
    requires forall e :: e in G'.edges ==> e in G.edges && G'.edges[e] == G.edges[e]
    ensures UniformColours(G')
  {
    forall c | c in G'.vtype && G'.vtype[c] == Character
      ensures AllIncident(G', c, Black) || AllIncident(G', c, Red)
    {
      assert AllIncident(G, c, Black) || AllIncident(G, c, Red);
    }
  }

  /** Removing a vertex keeps every character's edges of one colour. */
  lemma RemoveVertexKeepsUniform(G: Graph, v: string)
    requires Valid(G) && UniformColours(G) && v in G.vtype
    ensures UniformColours(RemoveVertex(G, v).value)
  {
    UniformSubgraph(G, RemoveVertex(G, v).value);
  }

  /** add_edge: both ends must exist and must not be joined yet. */
  function AddEdge(G: Graph, u: string, w: string, col: Color): Result<Graph>
  {
    if u !in G.vtype || w !in G.vtype then Fail(VertexMissing)
    else if (u, w) in G.edges then Fail(EdgeExists)
    else Ok(G.(edges := G.edges[(u, w) := col][(w, u) := col]))
  }

  /** Replacing only the edges keeps a valid graph valid when the new edges are in place and paired. */
  lemma EdgesOnlyChange(G: Graph, E: map<(string, string), Color>)
    requires Valid(G) && SymmetricMap(E)
    requires forall e :: e in E ==> e.0 in G.vtype && e.1 in G.vtype
    ensures Valid(G.(edges := E))
  {
  }

  lemma PairUpdateSymmetric(E: map<(string, string), Color>, u: string, w: string, col: Color)
    requires SymmetricMap(E)
    ensures SymmetricMap(E[(u, w) := col][(w, u) := col])
  {
    var E' := E[(u, w) := col][(w, u) := col];
    forall a, b | (a, b) in E' ensures (b, a) in E' && E'[(b, a)] == E'[(a, b)] {
      if (a, b) != (u, w) && (a, b) != (w, u) {
        assert (a, b) in E;
      }
    }
  }

  lemma PairRemoveSymmetric(E: map<(string, string), Color>, u: string, w: string)
    requires SymmetricMap(E)
    ensures SymmetricMap(E - {(u, w), (w, u)})
  {
    var E' := E - {(u, w), (w, u)};
    forall a, b | (a, b) in E' ensures (b, a) in E' && E'[(b, a)] == E'[(a, b)] {
      assert (a, b) in E;
    }
  }

  lemma AddEdgeAdds(G: Graph, u: string, w: string, col: Color)
    requires Valid(G)
    ensures AddEdge(G, u, w, col).Fail? <==> u !in G.vtype || w !in G.vtype || (u, w) in G.edges
    ensures AddEdge(G, u, w, col).Ok? ==>
      var G' := AddEdge(G, u, w, col).value;
      && Valid(G') && G'.vertices == G.vertices && G'.vtype == G.vtype
      && G'.edges.Keys == G.edges.Keys + {(u, w), (w, u)}
      && G'.edges[(u, w)] == col && G'.edges[(w, u)] == col
      && (forall e :: e in G.edges ==> G'.edges[e] == G.edges[e])
  {
    if AddEdge(G, u, w, col).Ok? {
      AddedEdgeValid(G, u, w, col);
      PairUpdateKeeps(G.edges, u, w, col);
      PairUpdateKeys(G.edges, u, w, col);
    }
  }

  lemma PairUpdateKeys(E: map<(string, string), Color>, u: string, w: string, col: Color)
    ensures E[(u, w) := col][(w, u) := col].Keys == E.Keys + {(u, w), (w, u)}
  {
  }

  lemma AddedEdgeValid(G: Graph, u: string, w: string, col: Color)
    requires Valid(G) && u in G.vtype && w in G.vtype
    ensures Valid(G.(edges := G.edges[(u, w) := col][(w, u) := col]))
  {
    PairUpdateSymmetric(G.edges, u, w, col);
    PairUpdateInside(G, u, w, col);
    EdgesOnlyChange(G, G.edges[(u, w) := col][(w, u) := col]);
  }

  lemma PairUpdateInside(G: Graph, u: string, w: string, col: Color)
    requires EdgesInside(G) && u in G.vtype && w in G.vtype
    ensures forall e :: e in G.edges[(u, w) := col][(w, u) := col] ==> e.0 in G.vtype && e.1 in G.vtype
  {
  }

  lemma PairUpdateKeeps(E: map<(string, string), Color>, u: string, w: string, col: Color)
    requires SymmetricMap(E) && (u, w) !in E
    ensures forall e :: e in E ==> E[(u, w) := col][(w, u) := col][e] == E[e]
  {
    forall e | e in E ensures E[(u, w) := col][(w, u) := col][e] == E[e] {
      assert (e.0, e.1) in E;
    }
  }

  /** remove_edge: both ends must exist and be joined. */
  function RemoveEdge(G: Graph, u: string, w: string): Result<Graph>
  {
    if u !in G.vtype || w !in G.vtype then Fail(VertexMissing)
    else if (u, w) !in G.edges then Fail(EdgeMissing)
    else Ok(G.(edges := G.edges - {(u, w), (w, u)}))
  }

  lemma RemoveEdgeRemoves(G: Graph, u: string, w: string)
    requires Valid(G)
    ensures RemoveEdge(G, u, w).Fail? <==> u !in G.vtype || w !in G.vtype || (u, w) !in G.edges
    ensures RemoveEdge(G, u, w).Ok? ==>
      var G' := RemoveEdge(G, u, w).value;
      && Valid(G') && G'.vertices == G.vertices && G'.vtype == G.vtype
      && G'.edges.Keys == G.edges.Keys - {(u, w), (w, u)}
  {
    if RemoveEdge(G, u, w).Ok? {
      PairRemoveSymmetric(G.edges, u, w);
      EdgesOnlyChange(G, G.edges - {(u, w), (w, u)});
    }
  }

  /** get_edge: the colour of the edge joining u and w. */
  function GetEdge(G: Graph, u: string, w: string): (r: Result<Color>)
    requires WellFormed(G)
    ensures r.Ok? <==> (u, w) in G.edges
    ensures r.Ok? ==> r.value == G.edges[(u, w)] && r.value == G.edges[(w, u)]
  {
    if u !in G.vtype || w !in G.vtype then Fail(VertexMissing)
    else if (u, w) !in G.edges then Fail(EdgeMissing)
    else Ok(G.edges[(u, w)])
  }

  /** get_vertex: the vertex a name stands for, which is the name itself here. */
  function GetVertex(G: Graph, name: string): (r: Result<string>)
    ensures r.Ok? <==> name in G.vtype
    ensures r.Ok? ==> r.value == name
  {
    if name in G.vtype then Ok(name) else Fail(VertexMissing)
  }

  /** exists(source, target): both vertices exist and an edge joins them. */
  predicate HasEdge(G: Graph, u: string, w: string)
  {
    u in G.vtype && w in G.vtype && (u, w) in G.edges
  }

  /** boost::clear_vertex: every edge at v goes, v stays. */
  function ClearVertex(G: Graph, v: string): Graph
  {
    G.(edges := DropIncident(G.edges, v))
  }
}
