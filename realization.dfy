/**
  Realizing characters on a red-black graph.

  A signed character c+ (gain) or c- (lose) is realized on the graph in place.
  Realizing c+ is defined when c is inactive: every species of c's connected
  component that is joined to c loses that edge, every other one gets a red
  edge to c.  Realizing c- is defined when c is active and joined to every
  species of its component: all its edges go.  Both end by removing the
  vertices left without edges.
*/
module Realization {
  import opened Seqs
  import opened RBGraphCore
  import opened RBGraphOps
  import opened RBGraphQueries
  import opened RBGraphs

  datatype State = Lose | Gain

  /** A character name and a state; a default-initialised one is a gain with no name. */
  datatype SignedCharacter = SignedCharacter(character: string, state: State)

  const DefaultSignedCharacter := SignedCharacter("", Gain)

  //---------------------------------------------------------------------------
  // Equality and printing

  /** operator==: the same name and the same state. */
  function Same(a: SignedCharacter, b: SignedCharacter): (r: bool)
    ensures r <==> a == b
  {
    a.character == b.character && a.state == b.state
  }

  /** operator<<: the name followed by "+" for a gain or "-" for a loss. */
  function Show(sc: SignedCharacter): (s: string)
    ensures |s| == |sc.character| + 1 && s[..|sc.character|] == sc.character
  {
    sc.character + (if sc.state == Lose then "-" else "+")
  }

  /** Reads back what Show prints: the last character is the sign. */
  function Unshow(s: string): Option<SignedCharacter>
  {
    if s == [] then None
    else if s[|s| - 1] == '+' then Some(SignedCharacter(s[..|s| - 1], Gain))
    else if s[|s| - 1] == '-' then Some(SignedCharacter(s[..|s| - 1], Lose))
    else None
  }

  /** Printing loses nothing: the printed form reads back as the same signed character. */
  lemma ShowRoundTrip(sc: SignedCharacter)
    ensures Unshow(Show(sc)) == Some(sc)
  {
    var s := Show(sc);
    assert s[..|s| - 1] == sc.character;
  }

  /** Two signed characters print alike only when they are equal. */
  lemma ShowInjective(a: SignedCharacter, b: SignedCharacter)
    ensures Show(a) == Show(b) ==> a == b
  {
    ShowRoundTrip(a);
    ShowRoundTrip(b);
  }

  //---------------------------------------------------------------------------
  // realize_character as a function of the graph

  /** What a realization returns: the realized characters and the feasibility flag, or a throw. */
  datatype Answer = Answer(output: seq<SignedCharacter>, feasible: bool) | Throws(reason: Failure)

  /** The graph a realization leaves, and what it returns. */
  datatype Realization = Realization(graph: Graph, answer: Answer)

  /**
    The species ss of c's component visited in order: a species joined to c
    loses that edge, any other gets a red edge to c.
  */
  function Toggle(E: map<(string, string), Color>, c: string, ss: seq<string>): map<(string, string), Color>
  {
    if ss == [] then E
    else
      var E' := Toggle(E, c, ss[..|ss| - 1]);
      var s := ss[|ss| - 1];
      if (s, c) in E' then E' - {(s, c), (c, s)} else E'[(s, c) := Red][(c, s) := Red]
  }

  /**
    realize_character(sc, g).  A name with no vertex makes get_vertex throw,
    and realize_character does not catch that exception.
  */
  ghost function RealizeChar(G: Graph, sc: SignedCharacter): Realization
  {
    var c := sc.character;
    if c !in G.vtype then Realization(G, Throws(VertexMissing))
    else if sc.state == Gain && !Active(G, c) then
      Realization(RemoveSingletons(G.(edges := Toggle(G.edges, c, ComponentSpecies(G, c)))), Answer([sc], true))
    else if sc.state == Lose && Active(G, c) then
      if AllJoined(G, c) then
        Realization(RemoveSingletons(ClearVertex(G, c)), Answer([sc], true))
      else Realization(G, Answer([], false))
    else Realization(G, Answer([], false))
  }

  /** c is joined to every species of its component. */
  ghost predicate AllJoined(G: Graph, c: string)
  {
    forall s :: s in ComponentSpecies(G, c) ==> (s, c) in G.edges
  }

  //---------------------------------------------------------------------------
  // What toggling does

  lemma ToggleSnoc(E: map<(string, string), Color>, c: string, ss: seq<string>, s: string)
    ensures var T := Toggle(E, c, ss);
      Toggle(E, c, ss + [s]) == if (s, c) in T then T - {(s, c), (c, s)} else T[(s, c) := Red][(c, s) := Red]
  {
    assert (ss + [s])[..|ss|] == ss;
  }

  /**
    Toggling flips the edge between c and each listed species, makes the new
    ones red, and leaves every other pair as it was.
  */
  lemma {:induction false} ToggleFlips(E: map<(string, string), Color>, c: string, ss: seq<string>)
    requires Distinct(ss) && c !in ss && SymmetricMap(E)
    ensures var T := Toggle(E, c, ss);
      && SymmetricMap(T)
      && (forall s :: s in ss ==> ((c, s) in T <==> (c, s) !in E))
      && (forall s :: s in ss && (c, s) in T ==> T[(c, s)] == Red)
      && (forall e: (string, string) :: !(e.0 == c && e.1 in ss) && !(e.1 == c && e.0 in ss) ==>
            (e in T <==> e in E) && (e in E ==> T[e] == E[e]))
  {
    if ss != [] {
      var m := |ss| - 1;
      var init, s := ss[..m], ss[m];
      Snoc(ss);
      DistinctSnoc(init, s);
      ToggleFlips(E, c, init);
      var E' := Toggle(E, c, init);
      if (s, c) in E' {
        PairRemoveSymmetric(E', s, c);
      } else {
        PairUpdateSymmetric(E', s, c, Red);
      }
    }
  }

  /** Toggling the edges of c with species of the graph keeps the graph valid. */
  lemma {:induction false} ToggleValid(G: Graph, c: string, ss: seq<string>)
    requires Valid(G) && c in G.vtype && forall s :: s in ss ==> s in G.vtype
    ensures Valid(G.(edges := Toggle(G.edges, c, ss)))
  {
    if ss != [] {
      var m := |ss| - 1;
      Snoc(ss);
      ToggleValid(G, c, ss[..m]);
      var H := G.(edges := Toggle(G.edges, c, ss[..m]));
      if (ss[m], c) in H.edges {
        RemoveEdgeRemoves(H, ss[m], c);
      } else {
        AddEdgeAdds(H, ss[m], c, Red);
      }
    }
  }

  /** Toggling the edges of a character with species keeps the graph bipartite. */
  lemma ToggleBipartite(G: Graph, c: string, ss: seq<string>)
    requires Valid(G) && Bipartite(G) && c in G.vtype && G.vtype[c] == Character
    requires Distinct(ss) && forall s :: s in ss ==> s in G.vtype && G.vtype[s] == Species
    ensures Bipartite(G.(edges := Toggle(G.edges, c, ss)))
  {
    ToggleFlips(G.edges, c, ss);
    var T := Toggle(G.edges, c, ss);
    forall u, w | (u, w) in T ensures u in G.vtype && w in G.vtype && G.vtype[u] != G.vtype[w] {
      if !(u == c && w in ss) && !(w == c && u in ss) {
        assert (u, w) in G.edges;
      }
    }
  }

  /**
    Realizing c+ before the singletons go: c is joined, by red edges, exactly
    to the species of its component it was not joined to; no other pair changes.
  */
  lemma GainMeans(G: Graph, c: string)
    requires Valid(G) && Bipartite(G) && c in G.vtype && G.vtype[c] == Character
    ensures var H := G.(edges := Toggle(G.edges, c, ComponentSpecies(G, c)));
      && Valid(H) && Bipartite(H)
      && (forall s :: (c, s) in H.edges <==> s in ComponentSpecies(G, c) && (c, s) !in G.edges)
      && AllIncident(H, c, Red)
      && (forall e: (string, string) :: e.0 != c && e.1 != c ==> (e in H.edges <==> e in G.edges))
  {
    var D := ComponentSpecies(G, c);
    SpeciesInDistinct(G.vertices, G.vtype, Component(G, c));
    ComponentClosed(G, c);
    ToggleFlips(G.edges, c, D);
    ToggleValid(G, c, D);
    ToggleBipartite(G, c, D);
    NeighboursInComponent(G, c);
  }

  /** A character's neighbours are species of its component. */
  lemma NeighboursInComponent(G: Graph, c: string)
    requires Valid(G) && Bipartite(G) && c in G.vtype && G.vtype[c] == Character
    ensures forall s :: (c, s) in G.edges ==> s in ComponentSpecies(G, c)
  {
    ComponentClosed(G, c);
    forall s | (c, s) in G.edges ensures s in ComponentSpecies(G, c) {
      assert s in Component(G, c);
    }
  }

  /** Realizing c- removes c and every edge at it, and keeps the graph valid. */
  lemma LoseMeans(G: Graph, c: string)
    requires Valid(G) && c in G.vtype
    ensures var H := RemoveSingletons(ClearVertex(G, c));
      && Valid(H) && c !in H.vtype && H.vtype.Keys <= G.vtype.Keys
      && H.edges == DropIncident(G.edges, c)
  {
    ClearVertexThenRemove(G, c);
    RemoveSingletonsKeepsEdged(ClearVertex(G, c));
  }

  /** For a character of a bipartite graph, active and joined to its whole component is red-universal. */
  lemma AllJoinedIffRedUniversal(G: Graph, c: string)
    requires Valid(G) && Bipartite(G) && c in G.vtype && G.vtype[c] == Character
    ensures Active(G, c) && AllJoined(G, c) <==> RedUniversal(G, c)
  {
    DegreeCountsComponent(G, c);
    NeighboursInComponent(G, c);
    var D := ComponentSpecies(G, c);
    assert AllJoined(G, c) <==> (forall s :: s in D <==> (c, s) in G.edges) by {
      assert forall s :: (s, c) in G.edges <==> (c, s) in G.edges;
    }
  }

  /**
    In a bipartite graph c- is feasible for a character exactly when the
    character is red-universal.
  */
  lemma LoseFeasibleIffRedUniversal(G: Graph, c: string)
    requires Valid(G) && Bipartite(G) && c in G.vtype && G.vtype[c] == Character
    ensures RealizeChar(G, SignedCharacter(c, Lose)).answer == Answer([SignedCharacter(c, Lose)], true)
            <==> RedUniversal(G, c)
  {
    AllJoinedIffRedUniversal(G, c);
  }

  //---------------------------------------------------------------------------
  // realize_character in place

  /**
    The c+ loop: every species of the component comp of c, in vertex order,
    loses its edge to c when it has one and gets a red edge to c otherwise.
  */
  method ToggleComponent(g: RBGraph, c: string, comp: set<string>)
    requires c in g.vtype
    modifies g
    ensures g.Value() == old(g.Value()).(edges := Toggle(old(g.edges), c, SpeciesIn(old(g.vertices), old(g.vtype), comp)))
  {
    ghost var G0 := g.Value();
    var vs := g.vertices;
    var i := 0;
    while i < |vs|
      invariant 0 <= i <= |vs| && vs == G0.vertices
      invariant g.vertices == G0.vertices && g.vtype == G0.vtype
      invariant g.numSpecies == G0.numSpecies && g.numCharacters == G0.numCharacters
      invariant g.edges == Toggle(G0.edges, c, SpeciesIn(vs[..i], G0.vtype, comp))
    {
      var v := vs[i];
      ghost var T' := Toggle(G0.edges, c, SpeciesIn(vs[..i + 1], G0.vtype, comp));
      ToggleComponentStep(G0.edges, c, G0.vtype, comp, vs, i);
      if v in g.vtype && g.vtype[v] == Species && v in comp {
        if (v, c) in g.edges {
          RemoveEdgeValue(g.Value(), v, c);
          var _ := g.RemoveEdge(v, c);
        } else {
          AddEdgeValue(g.Value(), v, c, Red);
          var _ := g.AddEdge(v, c, Red);
        }
      }
      assert g.edges == T';
      i := i + 1;
    }
    assert vs[..i] == vs;
  }

  /** One species more of the c+ loop. */
  lemma ToggleComponentStep(E: map<(string, string), Color>, c: string, vtype: map<string, Type>,
                            comp: set<string>, vs: seq<string>, i: nat)
    requires i < |vs|
    ensures var T := Toggle(E, c, SpeciesIn(vs[..i], vtype, comp));
      var v := vs[i];
      Toggle(E, c, SpeciesIn(vs[..i + 1], vtype, comp)) ==
        if v in vtype && vtype[v] == Species && v in comp then
          if (v, c) in T then T - {(v, c), (c, v)} else T[(v, c) := Red][(c, v) := Red]
        else T
  {
    TakeSnoc(vs, i);
    var done := SpeciesIn(vs[..i], vtype, comp);
    SpeciesInSnoc(vs[..i], vs[i], vtype, comp);
    ToggleSnoc(E, c, done, vs[i]);
    if !(vs[i] in vtype && vtype[vs[i]] == Species && vs[i] in comp) {
      assert done + [] == done;
    }
  }

  /** remove_edge on an existing edge drops both of its directions. */
  lemma RemoveEdgeValue(G: Graph, u: string, w: string)
    requires u in G.vtype && w in G.vtype && (u, w) in G.edges
    ensures After(RBGraphCore.RemoveEdge(G, u, w), G) == G.(edges := G.edges - {(u, w), (w, u)})
  {
  }

  /** add_edge between existing, unjoined vertices sets both directions. */
  lemma AddEdgeValue(G: Graph, u: string, w: string, col: Color)
    requires u in G.vtype && w in G.vtype && (u, w) !in G.edges
    ensures After(RBGraphCore.AddEdge(G, u, w, col), G) == G.(edges := G.edges[(u, w) := col][(w, u) := col])
  {
  }

  /**
    The c- loop: the species of the component comp of c are searched, in
    vertex order, for one that exists(v, c) says is not joined to c.
  */
  method JoinedToComponent(G: Graph, c: string) returns (connected: bool)
    requires NamesListed(G) && EdgesInside(G)
    ensures connected == AllJoined(G, c)
  {
    var comp := Component(G, c);
    var vs := G.vertices;
    var i := 0;
    while i < |vs|
      invariant 0 <= i <= |vs|
      invariant forall k :: 0 <= k < i ==> JoinedIfSpeciesIn(G, c, comp, vs[k])
    {
      var v := vs[i];
      assert v in G.vtype;
      if G.vtype[v] == Species && v in comp {
        var joined := ExistsEdge(G, v, c);
        if !joined {
          assert v in ComponentSpecies(G, c);
          return false;
        }
      }
      i := i + 1;
    }
    forall s | s in ComponentSpecies(G, c) ensures (s, c) in G.edges {
      var k :| 0 <= k < |vs| && vs[k] == s;
      assert JoinedIfSpeciesIn(G, c, comp, vs[k]);
    }
    connected := true;
  }

  /** v is joined to c when it is a species of comp. */
  ghost predicate JoinedIfSpeciesIn(G: Graph, c: string, comp: set<string>, v: string)
  {
    v in G.vtype && G.vtype[v] == Species && v in comp ==> (v, c) in G.edges
  }

  /**
    realize_character(sc, g): the graph becomes RealizeChar's graph and the
    answer is RealizeChar's answer.
  */
  method RealizeCharacter(g: RBGraph, sc: SignedCharacter) returns (ans: Answer)
    requires g.Valid()
    modifies g
    ensures g.Value() == RealizeChar(old(g.Value()), sc).graph
    ensures ans == RealizeChar(old(g.Value()), sc).answer
  {
    var c := sc.character;
    if c !in g.vtype {
      return Throws(VertexMissing);
    }
    var G0 := g.Value();
    var comp := Component(G0, c);
    var inactive := IsInactive(G0, c);
    if sc.state == Gain && inactive {
      ToggleComponent(g, c, comp);
      ToggleValid(G0, c, ComponentSpecies(G0, c));
    } else if sc.state == Lose && !inactive {
      var connected := JoinedToComponent(G0, c);
      if !connected {
        return Answer([], false);
      }
      g.ClearVertex(c);
      ClearVertexThenRemove(G0, c);
    } else {
      return Answer([], false);
    }
    g.RemoveSingletons();
    ans := Answer([sc], true);
  }

  //---------------------------------------------------------------------------
  // What a realization keeps

  /**
    Realizing a signed character of a valid graph leaves a valid graph with no
    new names and the old types; a bipartite graph stays bipartite when the
    name is a character.
  */
  lemma RealizeCharKeeps(G: Graph, sc: SignedCharacter)
    requires Valid(G)
    ensures var H := RealizeChar(G, sc).graph;
      && Valid(H) && H.vtype.Keys <= G.vtype.Keys
      && (forall w :: w in H.vtype ==> H.vtype[w] == G.vtype[w])
      && (Bipartite(G) && (sc.character in G.vtype ==> G.vtype[sc.character] == Character) ==> Bipartite(H))
  {
    var c := sc.character;
    if c in G.vtype && sc.state == Gain && !Active(G, c) {
      GainKeeps(G, c);
    } else if c in G.vtype && sc.state == Lose && Active(G, c) && AllJoined(G, c) {
      LoseKeeps(G, c);
    }
  }

  /** What RealizeCharKeeps states, for the graph c+ leaves. */
  lemma GainKeeps(G: Graph, c: string)
    requires Valid(G) && c in G.vtype
    ensures var H := RemoveSingletons(G.(edges := Toggle(G.edges, c, ComponentSpecies(G, c))));
      && Valid(H) && H.vtype.Keys <= G.vtype.Keys
      && (forall w :: w in H.vtype ==> H.vtype[w] == G.vtype[w])
      && (Bipartite(G) && G.vtype[c] == Character ==> Bipartite(H))
  {
    var H := G.(edges := Toggle(G.edges, c, ComponentSpecies(G, c)));
    ToggleValid(G, c, ComponentSpecies(G, c));
    if Bipartite(G) && G.vtype[c] == Character {
      GainMeans(G, c);
    }
    SingletonsKeep(H);
  }

  /** What RealizeCharKeeps states, for the graph c- leaves. */
  lemma LoseKeeps(G: Graph, c: string)
    requires Valid(G) && c in G.vtype
    ensures var H := RemoveSingletons(ClearVertex(G, c));
      && Valid(H) && H.vtype.Keys <= G.vtype.Keys
      && (forall w :: w in H.vtype ==> H.vtype[w] == G.vtype[w])
      && (Bipartite(G) ==> Bipartite(H))
  {
    var H := ClearVertex(G, c);
    ClearVertexThenRemove(G, c);
    DropIncidentKeys(G.edges, c);
    if Bipartite(G) {
      BipartiteKept(G, H);
    }
    SingletonsKeep(H);
  }

  /**
    realize_character keeps the documented colour invariant: after c+ the
    character's edges are all red, after c- it is gone, and every other
    character keeps its edges and their colours up to the singletons removed.
  */
  lemma RealizeKeepsUniform(G: Graph, sc: SignedCharacter)
    requires Valid(G) && Bipartite(G) && UniformColours(G)
    ensures UniformColours(RealizeChar(G, sc).graph)
  {
    var c := sc.character;
    if c in G.vtype && sc.state == Gain && !Active(G, c) {
      var H := G.(edges := Toggle(G.edges, c, ComponentSpecies(G, c)));
      GainUniform(G, c);
      ToggleValid(G, c, ComponentSpecies(G, c));
      RemoveSingletonsKeepsUniform(H);
    } else if c in G.vtype && sc.state == Lose && Active(G, c) && AllJoined(G, c) {
      ClearVertexThenRemove(G, c);
      UniformSubgraph(G, ClearVertex(G, c));
      RemoveSingletonsKeepsUniform(ClearVertex(G, c));
    }
  }

  /**
    An inactive character joined to every species of its component loses all
    its edges under c+, so the singleton sweep removes it.
  */
  lemma GainJoinedRemoves(G: Graph, c: string)
    requires Valid(G) && Bipartite(G) && c in G.vtype && G.vtype[c] == Character
    requires !Active(G, c) && AllJoined(G, c)
    ensures var R := RealizeChar(G, SignedCharacter(c, Gain));
      && R.answer == Answer([SignedCharacter(c, Gain)], true)
      && c !in R.graph.vtype
  {
    var H := G.(edges := Toggle(G.edges, c, ComponentSpecies(G, c)));
    GainMeans(G, c);
    forall s | s in ComponentSpecies(G, c) ensures (c, s) in G.edges {
      assert (s, c) in G.edges;
    }
    assert !HasIncidentEdge(H, c);
    RemoveSingletonsKeepsEdged(H);
  }

  /** Toggling the edges at c leaves alone every pair whose first end is neither c nor toggled. */
  lemma {:induction false} ToggleKeepsAway(E: map<(string, string), Color>, c: string, ss: seq<string>, e: (string, string))
    requires e.0 != c && e.0 !in ss
    ensures var T := Toggle(E, c, ss);
      (e in T <==> e in E) && (e in E ==> T[e] == E[e])
  {
    if ss != [] {
      ToggleKeepsAway(E, c, ss[..|ss| - 1], e);
    }
  }

  /** The graph c+ builds before the singletons go keeps every character's edges of one colour. */
  lemma GainUniform(G: Graph, c: string)
    requires Valid(G) && Bipartite(G) && UniformColours(G) && c in G.vtype
    ensures UniformColours(G.(edges := Toggle(G.edges, c, ComponentSpecies(G, c))))
  {
    var ss := ComponentSpecies(G, c);
    var H := G.(edges := Toggle(G.edges, c, ss));
    forall d | d in H.vtype && H.vtype[d] == Character
      ensures AllIncident(H, d, Black) || AllIncident(H, d, Red)
    {
      if d == c {
        GainMeans(G, c);
      } else {
        assert d !in ss;
        forall w ensures ((d, w) in H.edges <==> (d, w) in G.edges)
                      && ((d, w) in G.edges ==> H.edges[(d, w)] == G.edges[(d, w)])
        {
          ToggleKeepsAway(G.edges, c, ss, (d, w));
        }
        assert AllIncident(G, d, Black) || AllIncident(G, d, Red);
      }
    }
  }

  lemma DropIncidentKeys(E: map<(string, string), Color>, v: string)
    ensures DropIncident(E, v).Keys <= E.Keys
  {
  }

  /** remove_singletons keeps a graph valid, keeps the types, adds no name and keeps it bipartite. */
  lemma SingletonsKeep(H: Graph)
    requires Valid(H)
    ensures var K := RemoveSingletons(H);
      && Valid(K) && K.vtype.Keys <= H.vtype.Keys
      && (forall w :: w in K.vtype ==> K.vtype[w] == H.vtype[w])
      && (Bipartite(H) ==> Bipartite(K))
  {
    DropSingletonsDrops(H, H.vertices);
    if Bipartite(H) {
      BipartiteKept(H, RemoveSingletons(H));
    }
  }

  /** Keeping the types and some of the edges of a bipartite graph keeps it bipartite. */
  lemma BipartiteKept(G: Graph, H: Graph)
    requires Bipartite(G) && EdgesInside(H) && H.edges.Keys <= G.edges.Keys
    requires forall w :: w in H.vtype && w in G.vtype ==> H.vtype[w] == G.vtype[w]
    ensures Bipartite(H)
  {
    forall u, w | (u, w) in H.edges ensures u in H.vtype && w in H.vtype && H.vtype[u] != H.vtype[w] {
      assert (u, w) in G.edges;
    }
  }

  //---------------------------------------------------------------------------
  // realize: a list of signed characters, one after the other

  /**
    realize(lsc, g) once out has been realized: a signed character already in
    out is skipped; a throw propagates; the first infeasible one ends the run
    with its own (empty, false) answer and the graph as it then is.
  */
  ghost function ListRealizationFrom(G: Graph, lsc: seq<SignedCharacter>, out: seq<SignedCharacter>): Realization
    decreases |lsc|
  {
    if lsc == [] then Realization(G, Answer(out, true))
    else if lsc[0] in out then ListRealizationFrom(G, lsc[1..], out)
    else
      var R := RealizeChar(G, lsc[0]);
      if R.answer.Throws? || !R.answer.feasible then R
      else ListRealizationFrom(R.graph, lsc[1..], out + R.answer.output)
  }

  /** realize(lsc, g). */
  ghost function ListRealization(G: Graph, lsc: seq<SignedCharacter>): Realization
  {
    ListRealizationFrom(G, lsc, [])
  }

  /** realize(lsc, g) in place: the loop over lsc with the growing output list. */
  method Realize(g: RBGraph, lsc: seq<SignedCharacter>) returns (ans: Answer)
    requires g.Valid()
    modifies g
    ensures g.Value() == ListRealization(old(g.Value()), lsc).graph
    ensures ans == ListRealization(old(g.Value()), lsc).answer
  {
    ghost var G0 := g.Value();
    var output := [];
    var i := 0;
    while i < |lsc|
      invariant 0 <= i <= |lsc| && g.Valid()
      invariant ListRealizationFrom(g.Value(), lsc[i..], output) == ListRealization(G0, lsc)
    {
      var sc := lsc[i];
      if sc in output {
        ListSkipStep(g.Value(), lsc, i, output);
      } else {
        ghost var G := g.Value();
        RealizeCharKeeps(G, sc);
        var a := RealizeCharacter(g, sc);
        ListRealizeStep(G, lsc, i, output, Realization(g.Value(), a));
        if a.Throws? || !a.feasible {
          return a;
        }
        output := output + a.output;
      }
      i := i + 1;
    }
    ans := Answer(output, true);
  }

  /** realize skips a signed character it has already output. */
  lemma ListSkipStep(G: Graph, lsc: seq<SignedCharacter>, i: nat, out: seq<SignedCharacter>)
    requires i < |lsc| && lsc[i] in out
    ensures ListRealizationFrom(G, lsc[i..], out) == ListRealizationFrom(G, lsc[i + 1..], out)
  {
    assert lsc[i..][1..] == lsc[i + 1..];
  }

  /** realize realizes a new signed character and stops when that does not succeed. */
  lemma ListRealizeStep(G: Graph, lsc: seq<SignedCharacter>, i: nat, out: seq<SignedCharacter>, R: Realization)
    requires i < |lsc| && lsc[i] !in out && R == RealizeChar(G, lsc[i])
    ensures ListRealizationFrom(G, lsc[i..], out) ==
      if R.answer.Throws? || !R.answer.feasible then R
      else ListRealizationFrom(R.graph, lsc[i + 1..], out + R.answer.output)
  {
    assert lsc[i..][1..] == lsc[i + 1..];
  }

  /** The signed characters of lsc, first occurrences only, that are not in out. */
  function Unseen(lsc: seq<SignedCharacter>, out: seq<SignedCharacter>): seq<SignedCharacter>
    decreases |lsc|
  {
    if lsc == [] then []
    else if lsc[0] in out then Unseen(lsc[1..], out)
    else [lsc[0]] + Unseen(lsc[1..], out + [lsc[0]])
  }

  /** Unseen holds each signed character of lsc missing from out, once. */
  lemma {:induction false} UnseenMeans(lsc: seq<SignedCharacter>, out: seq<SignedCharacter>)
    ensures forall x :: x in Unseen(lsc, out) <==> x in lsc && x !in out
    ensures Distinct(Unseen(lsc, out))
    decreases |lsc|
  {
    if lsc != [] {
      Cons(lsc);
      if lsc[0] in out {
        UnseenMeans(lsc[1..], out);
      } else {
        UnseenMeans(lsc[1..], out + [lsc[0]]);
        DistinctCons(lsc[0], Unseen(lsc[1..], out + [lsc[0]]));
      }
    }
  }

  /**
    What realize returns: a throw, (empty, false) at the first infeasible
    signed character, or true with out followed by every new signed character
    of lsc, in order and once each.
  */
  lemma {:induction false} ListRealizationAnswer(G: Graph, lsc: seq<SignedCharacter>, out: seq<SignedCharacter>)
    ensures var a := ListRealizationFrom(G, lsc, out).answer;
      a.Throws? || a == Answer([], false) || a == Answer(out + Unseen(lsc, out), true)
    decreases |lsc|
  {
    if lsc != [] && lsc[0] !in out {
      var R := RealizeChar(G, lsc[0]);
      if R.answer.Answer? && R.answer.feasible {
        ListRealizationAnswer(R.graph, lsc[1..], out + [lsc[0]]);
        Associative(out, [lsc[0]], Unseen(lsc[1..], out + [lsc[0]]));
      }
    } else if lsc != [] {
      ListRealizationAnswer(G, lsc[1..], out);
    }
  }

  /** A successful realize outputs each signed character of lsc exactly once. */
  lemma RealizeOutputsEachOnce(G: Graph, lsc: seq<SignedCharacter>)
    requires ListRealization(G, lsc).answer.Answer? && ListRealization(G, lsc).answer.feasible
    ensures var o := ListRealization(G, lsc).answer.output;
      Distinct(o) && forall x :: x in o <==> x in lsc
  {
    ListRealizationAnswer(G, lsc, []);
    UnseenMeans(lsc, []);
  }

  /** Realizing a one-element list is realizing its element. */
  lemma RealizeSingle(G: Graph, sc: SignedCharacter)
    ensures ListRealization(G, [sc]) == RealizeChar(G, sc)
  {
    var R := RealizeChar(G, sc);
    assert [sc][0] == sc && [sc][1..] == [];
    if R.answer.Answer? && R.answer.feasible {
      assert R.answer.output == [sc];
      assert [] + R.answer.output == [sc];
      assert ListRealizationFrom(R.graph, [], [sc]) == Realization(R.graph, Answer([sc], true));
    }
  }

  /**
    Realizing a + b is realizing a and then, when that succeeds, realizing b
    on the graph it left with the output so far.
  */
  lemma {:induction false} ListRealizationAppend(G: Graph, a: seq<SignedCharacter>, b: seq<SignedCharacter>, out: seq<SignedCharacter>)
    ensures var R := ListRealizationFrom(G, a, out);
      ListRealizationFrom(G, a + b, out) ==
        if R.answer.Answer? && R.answer.feasible then ListRealizationFrom(R.graph, b, R.answer.output) else R
    decreases |a|
  {
    if a == [] {
      assert a + b == b;
    } else {
      assert (a + b)[0] == a[0] && (a + b)[1..] == a[1..] + b;
      var R := RealizeChar(G, a[0]);
      if a[0] in out {
        ListRealizationAppend(G, a[1..], b, out);
      } else if R.answer.Answer? && R.answer.feasible {
        ListRealizationAppend(R.graph, a[1..], b, out + R.answer.output);
      }
    }
  }

  /** realize_character applied to each element of lsc in turn, whatever it answers. */
  ghost function OneByOne(G: Graph, lsc: seq<SignedCharacter>): Graph
    decreases |lsc|
  {
    if lsc == [] then G else OneByOne(RealizeChar(G, lsc[0]).graph, lsc[1..])
  }

  /**
    For a list without repeats that realizes successfully, realize leaves the
    graph that realizing the elements one by one leaves.
  */
  lemma {:induction false} RealizeIsOneByOne(G: Graph, lsc: seq<SignedCharacter>, out: seq<SignedCharacter>)
    requires Distinct(lsc) && forall x :: x in lsc ==> x !in out
    requires ListRealizationFrom(G, lsc, out).answer.Answer? && ListRealizationFrom(G, lsc, out).answer.feasible
    ensures ListRealizationFrom(G, lsc, out).graph == OneByOne(G, lsc)
    decreases |lsc|
  {
    if lsc != [] {
      Cons(lsc);
      DistinctCons(lsc[0], lsc[1..]);
      var R := RealizeChar(G, lsc[0]);
      assert lsc[0] in lsc;
      RealizeIsOneByOne(R.graph, lsc[1..], out + R.answer.output);
    }
  }

  //---------------------------------------------------------------------------
  // realize_species

  /** c+ for each inactive character of cs, in order. */
  ghost function InactiveGains(G: Graph, cs: seq<string>): seq<SignedCharacter>
  {
    if cs == [] then []
    else
      var c := cs[|cs| - 1];
      InactiveGains(G, cs[..|cs| - 1]) + (if c in G.vtype && !Active(G, c) then [SignedCharacter(c, Gain)] else [])
  }

  /**
    realize_species(v, g): nothing for a vertex that is not a species, else
    realize on c+ for the inactive characters adjacent to v, in vertex order.
  */
  ghost function SpeciesRealization(G: Graph, v: string): Realization
    requires v in G.vtype
  {
    if G.vtype[v] != Species then Realization(G, Answer([], false))
    else ListRealization(G, InactiveGains(G, Neighbours(G, v)))
  }

  /** realize_species(v, g) in place. */
  method RealizeSpecies(g: RBGraph, v: string) returns (ans: Answer)
    requires g.Valid() && v in g.vtype
    modifies g
    ensures g.Value() == SpeciesRealization(old(g.Value()), v).graph
    ensures ans == SpeciesRealization(old(g.Value()), v).answer
  {
    if g.vtype[v] != Species {
      return Answer([], false);
    }
    var lsc := InactiveAdjacentGains(g.Value(), v);
    ans := Realize(g, lsc);
  }

  /** The list realize_species builds: c+ for each inactive vertex adjacent to v. */
  method InactiveAdjacentGains(G: Graph, v: string) returns (lsc: seq<SignedCharacter>)
    requires WellFormed(G)
    ensures lsc == InactiveGains(G, Neighbours(G, v))
  {
    var adjacent := Neighbours(G, v);
    NeighboursAreEdges(G, v);
    lsc := [];
    var i := 0;
    while i < |adjacent|
      invariant 0 <= i <= |adjacent|
      invariant lsc == InactiveGains(G, adjacent[..i])
    {
      var c := adjacent[i];
      TakeSnoc(adjacent, i);
      assert (v, c) in G.edges;
      var inactive := IsInactive(G, c);
      if inactive {
        lsc := lsc + [SignedCharacter(c, Gain)];
      }
      i := i + 1;
    }
    assert adjacent[..i] == adjacent;
  }

  /** The gains realize_species asks for: one per inactive character among cs, each once when cs has no repeats. */
  lemma {:induction false} InactiveGainsMeans(G: Graph, cs: seq<string>)
    ensures forall sc :: sc in InactiveGains(G, cs) <==>
      sc.state == Gain && sc.character in cs && sc.character in G.vtype && !Active(G, sc.character)
    ensures Distinct(cs) ==> Distinct(InactiveGains(G, cs))
  {
    if cs != [] {
      var init, c := cs[..|cs| - 1], cs[|cs| - 1];
      Snoc(cs);
      InactiveGainsMeans(G, init);
      DistinctSnoc(init, c);
      if c in G.vtype && !Active(G, c) {
        DistinctSnoc(InactiveGains(G, init), SignedCharacter(c, Gain));
      } else {
        assert InactiveGains(G, cs) == InactiveGains(G, init) + [];
      }
    }
  }

  /**
    For a species of a valid bipartite graph, realize_species asks for c+ of
    exactly the inactive characters adjacent to it, once each.
  */
  lemma SpeciesGains(G: Graph, v: string)
    requires Valid(G) && Bipartite(G) && v in G.vtype && G.vtype[v] == Species
    ensures var lsc := InactiveGains(G, Neighbours(G, v));
      && Distinct(lsc)
      && forall sc :: sc in lsc <==>
           sc.state == Gain && (v, sc.character) in G.edges && G.vtype[sc.character] == Character && !Active(G, sc.character)
  {
    NeighboursAreEdges(G, v);
    AdjacentDistinct(G.vertices, G.edges, v);
    InactiveGainsMeans(G, Neighbours(G, v));
  }

  //---------------------------------------------------------------------------
  // realize_red_univ_and_univ_chars

  /**
    A red-universal character is realized as c-, and a universal one that is
    not red-universal as c+; either way the realization succeeds and the
    character leaves the graph, which stays valid and bipartite.
  */
  lemma UniversalRealized(G: Graph, v: string, st: State)
    requires Valid(G) && Bipartite(G) && Candidate(G, v, st)
    ensures var R := RealizeChar(G, SignedCharacter(v, st));
      && R.answer == Answer([SignedCharacter(v, st)], true)
      && Valid(R.graph) && Bipartite(R.graph) && v !in R.graph.vtype
      && R.graph.vtype.Keys <= G.vtype.Keys
  {
    RealizeCharKeeps(G, SignedCharacter(v, st));
    if st == Lose {
      LoseFeasibleIffRedUniversal(G, v);
      LoseMeans(G, v);
    } else {
      var w :| (v, w) in G.edges && G.edges[(v, w)] != Red;
      assert !Active(G, v);
      GainRemovesUniversal(G, v);
    }
  }

  /** c+ of a universal character leaves it without edges, so remove_singletons drops it. */
  lemma GainRemovesUniversal(G: Graph, v: string)
    requires Valid(G) && Bipartite(G) && Universal(G, v)
    ensures v !in RemoveSingletons(G.(edges := Toggle(G.edges, v, ComponentSpecies(G, v)))).vtype
  {
    var H := G.(edges := Toggle(G.edges, v, ComponentSpecies(G, v)));
    GainMeans(G, v);
    DegreeCountsComponent(G, v);
    assert !HasIncidentEdge(H, v);
    RemoveSingletonsKeepsEdged(H);
  }

  /** A map loses at least one key when its keys shrink and v goes. */
  lemma FewerKeys(A: map<string, Type>, B: map<string, Type>, v: string)
    requires A.Keys <= B.Keys && v in B && v !in A
    ensures |A| < |B|
  {
    SubsetCard(A.Keys, B.Keys - {v});
    assert |B.Keys - {v}| == |B.Keys| - 1;
  }

  /** v is neither red-universal nor universal. */
  ghost predicate Settled(G: Graph, v: string)
  {
    !RedUniversal(G, v) && !Universal(G, v)
  }

  /** v is to be realized with state st: c- when red-universal, else c+ when universal. */
  ghost predicate Candidate(G: Graph, v: string, st: State)
  {
    v in G.vtype && if st == Lose then RedUniversal(G, v) else Universal(G, v) && !RedUniversal(G, v)
  }

  /**
    The first vertex of vs that is red-universal, paired with Lose, or else
    universal, paired with Gain; nothing when every vertex of vs is settled.
  */
  ghost function FirstUnsettled(G: Graph, vs: seq<string>): (r: Option<(string, State)>)
    ensures r.None? <==> forall k :: 0 <= k < |vs| ==> Settled(G, vs[k])
    ensures r.Some? ==> r.value.0 in vs
    ensures r.Some? && r.value.1 == Lose ==> RedUniversal(G, r.value.0)
    ensures r.Some? && r.value.1 == Gain ==> Universal(G, r.value.0) && !RedUniversal(G, r.value.0)
  {
    if vs == [] then None
    else if RedUniversal(G, vs[0]) then Some((vs[0], Lose))
    else if Universal(G, vs[0]) then Some((vs[0], Gain))
    else
      var r := FirstUnsettled(G, vs[1..]);
      assert forall k :: 1 <= k < |vs| ==> vs[k] == vs[1..][k - 1];
      r
  }

  /** The scan from position i looks at vs[i] first, then goes on from i + 1. */
  lemma FirstUnsettledAt(G: Graph, vs: seq<string>, i: nat)
    requires i < |vs|
    ensures FirstUnsettled(G, vs[i..]) ==
            if RedUniversal(G, vs[i]) then Some((vs[i], Lose))
            else if Universal(G, vs[i]) then Some((vs[i], Gain))
            else FirstUnsettled(G, vs[i + 1..])
  {
    assert vs[i..][0] == vs[i] && vs[i..][1..] == vs[i + 1..];
  }

  /**
    The outcome of realize_red_univ_and_univ_chars on G when the signed
    characters in done are already output: the whole output, in order, and
    the graph left once every vertex is settled.  Each round realizes the
    first unsettled vertex and scans again from the start.
  */
  ghost function UnivFix(G: Graph, done: seq<SignedCharacter>): (seq<SignedCharacter>, Graph)
    requires Valid(G) && Bipartite(G)
    decreases |G.vtype|
  {
    match FirstUnsettled(G, G.vertices)
    case None => (done, G)
    case Some((v, st)) =>
      assert Candidate(G, v, st);
      UniversalRealized(G, v, st);
      var R := RealizeChar(G, SignedCharacter(v, st)).graph;
      FewerKeys(R.vtype, G.vtype, v);
      UnivFix(R, done + [SignedCharacter(v, st)])
  }

  /** One round of realize_red_univ_and_univ_chars: the first unsettled vertex is realized and its signed character output. */
  lemma UnivFixStep(G: Graph, done: seq<SignedCharacter>, v: string, st: State)
    requires Valid(G) && Bipartite(G) && FirstUnsettled(G, G.vertices) == Some((v, st))
    ensures var R := RealizeChar(G, SignedCharacter(v, st)).graph;
      && Valid(R) && Bipartite(R)
      && UnivFix(G, done) == UnivFix(R, done + [SignedCharacter(v, st)])
  {
    UniversalRealized(G, v, st);
  }

  /**
    What realize_red_univ_and_univ_chars leaves: a valid bipartite graph on
    fewer names, with no red-universal or universal vertex.
  */
  lemma {:induction false} UnivFixSettles(G: Graph, done: seq<SignedCharacter>)
    requires Valid(G) && Bipartite(G)
    ensures var H := UnivFix(G, done).1;
      && Valid(H) && Bipartite(H) && H.vtype.Keys <= G.vtype.Keys
      && forall v :: v in H.vtype ==> Settled(H, v)
    decreases |G.vtype|
  {
    match FirstUnsettled(G, G.vertices)
    case None =>
      forall v | v in G.vtype ensures Settled(G, v) {
        var k :| 0 <= k < |G.vertices| && G.vertices[k] == v;
      }
    case Some((v, st)) =>
      UnivFixStep(G, done, v, st);
      var R := RealizeChar(G, SignedCharacter(v, st)).graph;
      UniversalRealized(G, v, st);
      FewerKeys(R.vtype, G.vtype, v);
      UnivFixSettles(R, done + [SignedCharacter(v, st)]);
  }

  /**
    One scan of realize_red_univ_and_univ_chars from the first vertex: the
    first vertex that is red-universal (to be realized as c-) or universal
    (as c+), or nothing when every vertex is settled.
  */
  method NextUniversal(G: Graph) returns (next: Option<(string, State)>)
    requires WellFormed(G)
    ensures next == FirstUnsettled(G, G.vertices)
    ensures next.Some? ==> Candidate(G, next.value.0, next.value.1)
    ensures next.None? ==> forall v :: v in G.vtype ==> Settled(G, v)
  {
    var vs := G.vertices;
    var i := 0;
    while i < |vs|
      invariant 0 <= i <= |vs|
      invariant forall k :: 0 <= k < i ==> Settled(G, vs[k])
      invariant FirstUnsettled(G, vs) == FirstUnsettled(G, vs[i..])
    {
      var v := vs[i];
      FirstUnsettledAt(G, vs, i);
      assert v in G.vtype;
      var redUniversal := IsRedUniversal(G, v);
      if redUniversal {
        return Some((v, Lose));
      }
      var universal := IsUniversal(G, v);
      if universal {
        return Some((v, Gain));
      }
      i := i + 1;
    }
    forall v | v in G.vtype ensures Settled(G, v) {
      var k :| 0 <= k < |vs| && vs[k] == v;
    }
    next := None;
  }

  /**
    realize_red_univ_and_univ_chars(g): a red-universal vertex is realized as
    c-, a universal one as c+, and after each realization the scan starts again
    from the first vertex.  At the end no vertex is red-universal or universal,
    and the flag says whether anything was realized.
  */
  method RealizeRedUnivAndUnivChars(g: RBGraph) returns (output: seq<SignedCharacter>, realized: bool)
    requires g.Valid() && Bipartite(g.Value())
    modifies g
    ensures g.Valid() && Bipartite(g.Value()) && g.vtype.Keys <= old(g.vtype).Keys
    ensures forall v :: v in g.vtype ==> !RedUniversal(g.Value(), v) && !Universal(g.Value(), v)
    ensures realized <==> output != []
    ensures forall sc :: sc in output ==> sc.character in old(g.vtype) && sc.character !in g.vtype
    ensures (output, g.Value()) == UnivFix(old(g.Value()), [])
  {
    output := [];
    ghost var G0 := g.Value();
    var next := NextUniversal(g.Value());
    while next.Some?
      invariant g.Valid() && Bipartite(g.Value()) && g.vtype.Keys <= old(g.vtype).Keys
      invariant next == FirstUnsettled(g.Value(), g.Value().vertices)
      invariant UnivFix(G0, []) == UnivFix(g.Value(), output)
      invariant next.Some? ==> Candidate(g.Value(), next.value.0, next.value.1)
      invariant next.None? ==> forall v :: v in g.vtype ==> Settled(g.Value(), v)
      invariant forall sc :: sc in output ==> sc.character in old(g.vtype) && sc.character !in g.vtype
      decreases |g.vtype|
    {
      var (v, st) := next.value;
      ghost var G := g.Value();
      UniversalRealized(G, v, st);
      UnivFixStep(G, output, v, st);
      var a := RealizeCharacter(g, SignedCharacter(v, st));
      FewerKeys(g.vtype, G.vtype, v);
      output := output + a.output;
      next := NextUniversal(g.Value());
    }
    assert UnivFix(g.Value(), output) == (output, g.Value());
    realized := output != [];
  }

  //---------------------------------------------------------------------------
  // is_2_solvable

  /** is_2_solvable(sources, g): two sources, each with at least two neighbours. */
  function Is2Solvable(G: Graph, sources: seq<string>): bool
  {
    |sources| == 2 && Degree(G, sources[0]) >= 2 && Degree(G, sources[1]) >= 2
  }

  /** v has two distinct neighbours. */
  ghost predicate TwoNeighbours(G: Graph, v: string)
  {
    exists u, w :: u != w && (v, u) in G.edges && (v, w) in G.edges
  }

  /** In a well-formed graph a degree of two or more is having two distinct neighbours. */
  lemma DegreeTwo(G: Graph, v: string)
    requires WellFormed(G)
    ensures Degree(G, v) >= 2 <==> TwoNeighbours(G, v)
  {
    var N := Neighbours(G, v);
    NeighboursAreEdges(G, v);
    AdjacentDistinct(G.vertices, G.edges, v);
    if |N| >= 2 {
      assert N[0] != N[1] && N[0] in N && N[1] in N;
    }
    if TwoNeighbours(G, v) {
      var u, w :| u != w && (v, u) in G.edges && (v, w) in G.edges;
      assert u in N && w in N;
      var k1 :| 0 <= k1 < |N| && N[k1] == u;
      var k2 :| 0 <= k2 < |N| && N[k2] == w;
      assert k1 != k2;
    }
  }

  /** is_2_solvable holds exactly for two sources that each have two distinct neighbours. */
  lemma Is2SolvableMeans(G: Graph, sources: seq<string>)
    requires WellFormed(G)
    ensures Is2Solvable(G, sources) <==>
      |sources| == 2 && TwoNeighbours(G, sources[0]) && TwoNeighbours(G, sources[1])
  {
    if |sources| == 2 {
      DegreeTwo(G, sources[0]);
      DegreeTwo(G, sources[1]);
    }
  }
}
