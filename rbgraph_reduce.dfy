/**
  maximal_reducible_graph: a copy of the graph from which the characters that
  are not maximal are removed (keeping the active ones when asked to), and
  then every vertex left without an edge.
*/
module RBGraphReduce {
  import opened Seqs
  import opened RBGraphCore
  import opened RBGraphOps
  import opened RBGraphQueries
  import opened RBGraphs

  /** A vertex the reduction does not remove: a species, a maximal character, or a kept active one. */
  ghost predicate Kept(G: Graph, cm: seq<string>, active: bool, w: string)
    requires w in G.vtype
  {
    G.vtype[w] != Character || w in cm || (active && Active(G, w))
  }

  /** The loop body of maximal_reducible_graph for the vertex v. */
  ghost function ReduceStep(G: Graph, cm: seq<string>, active: bool, v: string): Graph
  {
    if v !in G.vtype || G.vtype[v] != Character then G
    else if active && Active(G, v) then G
    else RemoveVertexIf(G, v, IfNotMaximal(Some(cm)))
  }

  /** The loop of maximal_reducible_graph over the vertices vs, in order. */
  ghost function ReduceFrom(G: Graph, cm: seq<string>, active: bool, vs: seq<string>): Graph
  {
    if vs == [] then G
    else ReduceStep(ReduceFrom(G, cm, active, vs[..|vs| - 1]), cm, active, vs[|vs| - 1])
  }

  /** maximal_reducible_graph(g, active). */
  ghost function MaximalReducible(G: Graph, active: bool): Graph
  {
    RemoveSingletons(ReduceFrom(G, MaximalCharacters(G), active, G.vertices))
  }

  lemma ReduceFromStep(G: Graph, cm: seq<string>, active: bool, vs: seq<string>, i: nat)
    requires i < |vs|
    ensures ReduceFrom(G, cm, active, vs[..i + 1]) == ReduceStep(ReduceFrom(G, cm, active, vs[..i]), cm, active, vs[i])
  {
    assert vs[..i + 1][..i] == vs[..i];
  }

  /** A step removes at most its own vertex and keeps the types of the rest. */
  lemma ReduceStepKeepsOthers(G: Graph, cm: seq<string>, active: bool, v: string)
    ensures var H := ReduceStep(G, cm, active, v);
      forall w :: w in G.vtype && w != v ==> w in H.vtype && H.vtype[w] == G.vtype[w]
  {
  }

  /** The loop never removes a vertex it has not visited yet. */
  lemma {:induction false} ReduceFromKeepsOthers(G: Graph, cm: seq<string>, active: bool, vs: seq<string>)
    ensures var H := ReduceFrom(G, cm, active, vs);
      forall w :: w in G.vtype && w !in vs ==> w in H.vtype
  {
    if vs != [] {
      ReduceFromKeepsOthers(G, cm, active, vs[..|vs| - 1]);
      ReduceStepKeepsOthers(ReduceFrom(G, cm, active, vs[..|vs| - 1]), cm, active, vs[|vs| - 1]);
      Snoc(vs);
    }
  }

  /** The loop keeps a valid graph valid. */
  lemma {:induction false} ReduceFromValid(G: Graph, cm: seq<string>, active: bool, vs: seq<string>)
    requires Valid(G)
    ensures Valid(ReduceFrom(G, cm, active, vs))
  {
    if vs != [] {
      ReduceFromValid(G, cm, active, vs[..|vs| - 1]);
      var H := ReduceFrom(G, cm, active, vs[..|vs| - 1]);
      var v := vs[|vs| - 1];
      if v in H.vtype {
        RemoveVertexIfRemoves(H, v, IfNotMaximal(Some(cm)));
      }
    }
  }

  /** What the loop has done after visiting vs, stated against the original graph. */
  ghost predicate Reduced(G: Graph, cm: seq<string>, active: bool, vs: seq<string>, H: Graph)
  {
    && (forall w :: w in H.vtype <==> w in G.vtype && (w in vs ==> Kept(G, cm, active, w)))
    && (forall w :: w in H.vtype ==> H.vtype[w] == G.vtype[w])
    && (forall e: (string, string) :: e in H.edges <==> e in G.edges && e.0 in H.vtype && e.1 in H.vtype)
    && (forall e: (string, string) :: e in H.edges ==> H.edges[e] == G.edges[e])
  }

  /**
    In a bipartite graph the loop removes exactly the visited characters that
    are not kept, with their edges; activity is judged on the original graph,
    since removing characters never touches another character's edges.
  */
  lemma {:induction false} ReduceFromRemoves(G: Graph, cm: seq<string>, active: bool, vs: seq<string>)
    requires Valid(G) && Bipartite(G)
    ensures Reduced(G, cm, active, vs, ReduceFrom(G, cm, active, vs))
  {
    if vs == [] {
      forall e: (string, string) | e in G.edges ensures e.0 in G.vtype && e.1 in G.vtype {
      }
    } else {
      var init := vs[..|vs| - 1];
      var v := vs[|vs| - 1];
      ReduceFromRemoves(G, cm, active, init);
      ReduceFromValid(G, cm, active, init);
      var H := ReduceFrom(G, cm, active, init);
      ReduceStepRemoves(G, cm, active, init, H, v);
      Snoc(vs);
    }
  }

  lemma ReduceStepRemoves(G: Graph, cm: seq<string>, active: bool, init: seq<string>, H: Graph, v: string)
    requires Valid(G) && Bipartite(G) && Valid(H)
    requires Reduced(G, cm, active, init, H)
    ensures Reduced(G, cm, active, init + [v], ReduceStep(H, cm, active, v))
  {
    if v in H.vtype && H.vtype[v] == Character && !(active && Active(H, v)) {
      SameActivity(G, cm, active, init, H, v);
      assert Contains(cm, v) == (v in cm);
      if v in cm {
        assert ReduceStep(H, cm, active, v) == H;
        ReducedSnocSame(G, cm, active, init, H, v);
      } else {
        RemoveVertexIfRemoves(H, v, IfNotMaximal(Some(cm)));
        ReducedSnocRemove(G, cm, active, init, H, ReduceStep(H, cm, active, v), v);
      }
    } else {
      if v in H.vtype && H.vtype[v] == Character {
        SameActivity(G, cm, active, init, H, v);
      }
      ReducedSnocSame(G, cm, active, init, H, v);
    }
  }

  /** A visit that keeps v leaves the graph as it was. */
  lemma ReducedSnocSame(G: Graph, cm: seq<string>, active: bool, init: seq<string>, H: Graph, v: string)
    requires Reduced(G, cm, active, init, H)
    requires v in H.vtype ==> Kept(G, cm, active, v)
    ensures Reduced(G, cm, active, init + [v], H)
  {
    assert forall x :: x in init + [v] <==> x in init || x == v;
  }

  /** A visit that removes v removes it with its edges and nothing else. */
  lemma ReducedSnocRemove(G: Graph, cm: seq<string>, active: bool, init: seq<string>, H: Graph, H': Graph, v: string)
    requires Reduced(G, cm, active, init, H)
    requires v in H.vtype && !Kept(G, cm, active, v)
    requires H'.vtype == H.vtype - {v}
    requires forall e: (string, string) :: e in H'.edges <==> e in H.edges && e.0 != v && e.1 != v
    requires forall e: (string, string) :: e in H'.edges ==> H'.edges[e] == H.edges[e]
    ensures Reduced(G, cm, active, init + [v], H')
  {
    assert forall x :: x in init + [v] <==> x in init || x == v;
  }

  /** A character still present has the same edges, hence the same activity, as in G. */
  lemma SameActivity(G: Graph, cm: seq<string>, active: bool, init: seq<string>, H: Graph, v: string)
    requires Valid(G) && Bipartite(G)
    requires Reduced(G, cm, active, init, H)
    requires v in H.vtype && H.vtype[v] == Character
    ensures Active(H, v) == Active(G, v)
  {
    forall w | (v, w) in G.edges ensures (v, w) in H.edges && H.edges[(v, w)] == G.edges[(v, w)] {
      assert G.vtype[w] == Species;
    }
  }

  /**
    The shape of the reduced graph R: a vertex survives exactly when it is kept
    and has an edge to a kept vertex, and the edges are those of G between
    kept vertices.
  */
  ghost predicate ReducedShape(G: Graph, cm: seq<string>, active: bool, R: Graph)
  {
    && (forall w :: w in R.vtype <==>
          w in G.vtype && Kept(G, cm, active, w) &&
          exists u :: (w, u) in G.edges && u in G.vtype && Kept(G, cm, active, u))
    && (forall e: (string, string) :: e in R.edges <==>
          e in G.edges && e.0 in G.vtype && e.1 in G.vtype && Kept(G, cm, active, e.0) && Kept(G, cm, active, e.1))
    && (forall e: (string, string) :: e in R.edges ==> R.edges[e] == G.edges[e])
  }

  /** The value maximal_reducible_graph returns from a valid bipartite graph. */
  lemma MaximalReducibleMeans(G: Graph, active: bool)
    requires Valid(G) && Bipartite(G)
    ensures Valid(MaximalReducible(G, active))
    ensures ReducedShape(G, MaximalCharacters(G), active, MaximalReducible(G, active))
  {
    var cm := MaximalCharacters(G);
    var H := ReduceFrom(G, cm, active, G.vertices);
    ReduceFromRemoves(G, cm, active, G.vertices);
    ReduceFromValid(G, cm, active, G.vertices);
    RemoveSingletonsKeepsEdged(H);
    ReducedThenSingletons(G, cm, active, H, RemoveSingletons(H));
  }

  /** Removing the singletons after the loop, stated against the original graph. */
  lemma ReducedThenSingletons(G: Graph, cm: seq<string>, active: bool, H: Graph, R: Graph)
    requires NamesListed(G) && EdgesInside(G)
    requires Reduced(G, cm, active, G.vertices, H)
    requires R.edges == H.edges && forall w :: w in R.vtype <==> w in H.vtype && HasIncidentEdge(H, w)
    ensures ReducedShape(G, cm, active, R)
  {
    forall w ensures w in R.vtype <==>
      w in G.vtype && Kept(G, cm, active, w) && exists u :: (w, u) in G.edges && u in G.vtype && Kept(G, cm, active, u)
    {
      if w in R.vtype {
        var u :| (w, u) in H.edges;
        assert (w, u) in G.edges && u in H.vtype;
      }
      if w in G.vtype && Kept(G, cm, active, w) && exists u :: (w, u) in G.edges && u in G.vtype && Kept(G, cm, active, u) {
        var u :| (w, u) in G.edges && u in G.vtype && Kept(G, cm, active, u);
        assert (w, u) in H.edges;
      }
    }
  }

  /**
    maximal_reducible_graph(g, active): copy g, compute its maximal characters,
    visit the vertices of the copy in order and remove each character that is
    not maximal (sparing the active ones when active is set), then remove the
    singletons.
  */
  method MaximalReducibleGraph(g: RBGraph, active: bool) returns (gm: RBGraph)
    requires g.Valid()
    ensures fresh(gm) && gm.Value() == MaximalReducible(g.Value(), active)
  {
    gm := new RBGraph.Copy(g);
    ghost var G0 := gm.Value();
    var cm := ComputeMaximalCharacters(gm.Value());
    var vs := gm.vertices;
    var i := 0;
    while i < |vs|
      invariant 0 <= i <= |vs| && vs == G0.vertices
      invariant gm.Value() == ReduceFrom(G0, cm, active, vs[..i])
      invariant Valid(gm.Value())
      invariant forall j :: i <= j < |vs| ==> vs[j] in gm.vtype
      modifies gm
    {
      ReduceFromStep(G0, cm, active, vs, i);
      var v := vs[i];
      ReduceLaterStay(G0, cm, active, vs, i);
      if gm.vtype[v] == Character {
        var skip := false;
        if active {
          skip := IsActive(gm.Value(), v);
        }
        if !skip {
          gm.RemoveVertexIf(v, IfNotMaximal(Some(cm)));
        }
      }
      ReduceFromValid(G0, cm, active, vs[..i + 1]);
      i := i + 1;
    }
    assert vs[..i] == vs;
    gm.RemoveSingletons();
  }

  /** The vertices the loop has not reached yet are still there after the next step. */
  lemma ReduceLaterStay(G: Graph, cm: seq<string>, active: bool, vs: seq<string>, i: nat)
    requires NamesListed(G) && Distinct(vs) && vs == G.vertices && i < |vs|
    ensures forall j :: i < j < |vs| ==> vs[j] in ReduceFrom(G, cm, active, vs[..i + 1]).vtype
  {
    ReduceFromKeepsOthers(G, cm, active, vs[..i + 1]);
    forall j | i < j < |vs| ensures vs[j] !in vs[..i + 1] {
      forall k | 0 <= k <= i ensures vs[k] != vs[j] {
      }
    }
  }
}
