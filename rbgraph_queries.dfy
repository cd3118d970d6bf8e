/**
  The read-only algorithms on the red-black graph: activity, pending species,
  (red-)universal characters, inclusion and overlap of characters, the
  inactive and the maximal characters, and the red sigma-path tests.  Each
  loops over the vertex list or over the edges of one vertex and changes
  nothing; each is proved to compute a predicate of RBGraphCore or of this
  module.  The out-edges of a vertex are visited in vertex order.
*/
module RBGraphQueries {
  import opened Seqs
  import opened RBGraphCore
  import opened RBGraphOps

  /** The edge (v, w) is present and red. */
  ghost predicate RedEdge(G: Graph, v: string, w: string)
  {
    (v, w) in G.edges && G.edges[(v, w)] == Red
  }

  /** Every neighbour of v is an end of an edge at v, and the converse. */
  lemma NeighboursAreEdges(G: Graph, v: string)
    requires NamesListed(G) && EdgesInside(G)
    ensures forall w :: w in Neighbours(G, v) <==> (v, w) in G.edges
  {
  }

  //---------------------------------------------------------------------------
  // is_active, is_inactive, is_pending_species

  /** is_active(v, g): one pass over v's edges. */
  method IsActive(G: Graph, v: string) returns (b: bool)
    requires WellFormed(G) && v in G.vtype
    ensures b == Active(G, v)
  {
    var isChar := G.vtype[v] == Character;
    var want := if isChar then Red else Black;
    var N := Neighbours(G, v);
    NeighboursAreEdges(G, v);
    var i := 0;
    while i < |N|
      invariant 0 <= i <= |N|
      invariant forall k :: 0 <= k < i ==> G.edges[(v, N[k])] == want
    {
      var col := G.edges[(v, N[i])];
      if isChar && col != Red {
        return false;
      } else if !isChar && col == Red {
        return false;
      }
      i := i + 1;
    }
    forall w | (v, w) in G.edges ensures G.edges[(v, w)] == want {
      var k :| 0 <= k < |N| && N[k] == w;
    }
    b := true;
  }

  /** is_inactive(v, g) is the negation of is_active(v, g). */
  method IsInactive(G: Graph, v: string) returns (b: bool)
    requires WellFormed(G) && v in G.vtype
    ensures b == !Active(G, v)
  {
    var active := IsActive(G, v);
    b := !active;
  }

  /** Isolated vertices are active, whatever their type. */
  lemma IsolatedIsActive(G: Graph, v: string)
    requires v in G.vtype && forall w :: (v, w) !in G.edges
    ensures Active(G, v)
  {
  }

  /**
    is_pending_species(s, g): a species with exactly one incident edge, which
    is black.
  */
  function IsPendingSpecies(G: Graph, s: string): (b: bool)
    requires WellFormed(G) && s in G.vtype
    ensures b <==> G.vtype[s] == Species && exists w :: (s, w) in G.edges && G.edges[(s, w)] == Black &&
                                                         forall x :: (s, x) in G.edges ==> x == w
  {
    var N := Neighbours(G, s);
    NeighboursAreEdges(G, s);
    OnlyNeighbour(G, s);
    if G.vtype[s] != Species then false
    else if |N| != 1 then false
    else G.edges[(s, N[0])] == Black
  }

  /** A vertex has exactly one neighbour w exactly when w is the one end of its edges. */
  lemma OnlyNeighbour(G: Graph, s: string)
    requires WellFormed(G)
    ensures |Neighbours(G, s)| == 1 <==> exists w :: (s, w) in G.edges && forall x :: (s, x) in G.edges ==> x == w
    ensures |Neighbours(G, s)| == 1 ==> (s, Neighbours(G, s)[0]) in G.edges
  {
    var N := Neighbours(G, s);
    NeighboursAreEdges(G, s);
    AdjacentDistinct(G.vertices, G.edges, s);
    if |N| == 1 {
      assert N[0] in N;
      forall x | (s, x) in G.edges ensures x == N[0] {
        assert x in N;
      }
    }
    if exists w :: (s, w) in G.edges && forall x :: (s, x) in G.edges ==> x == w {
      var w :| (s, w) in G.edges && forall x :: (s, x) in G.edges ==> x == w;
      assert w in N;
      DistinctCard(N);
      SubsetCard(set x | x in N, {w});
    }
  }

  //---------------------------------------------------------------------------
  // is_red_universal, is_universal

  /**
    The common body of is_red_universal and is_universal: count the species of
    v's component, then walk v's edges, failing at the first of the wrong
    colour, and compare the two counts.
  */
  method UniversalWith(G: Graph, v: string, col: Color) returns (b: bool)
    requires WellFormed(G) && v in G.vtype
    ensures b == (G.vtype[v] == Character && AllIncident(G, v, col) && Degree(G, v) == |ComponentSpecies(G, v)|)
  {
    if G.vtype[v] != Character {
      return false;
    }
    var totSpecies := CountSpeciesIn(G, Component(G, v));
    var allCol, countSpecies := CountEdgesOfColour(G, v, col);
    if !allCol {
      return false;
    }
    b := countSpecies == totSpecies;
  }

  /** The first loop of is_(red_)universal: the species of the graph that lie in comp. */
  method CountSpeciesIn(G: Graph, comp: set<string>) returns (n: nat)
    ensures n == |SpeciesIn(G.vertices, G.vtype, comp)|
  {
    n := 0;
    var i := 0;
    while i < |G.vertices|
      invariant 0 <= i <= |G.vertices|
      invariant n == |SpeciesIn(G.vertices[..i], G.vtype, comp)|
    {
      var u := G.vertices[i];
      TakeSnoc(G.vertices, i);
      SpeciesInSnoc(G.vertices[..i], u, G.vtype, comp);
      if u in G.vtype && G.vtype[u] == Species && u in comp {
        n := n + 1;
      }
      i := i + 1;
    }
    assert G.vertices[..i] == G.vertices;
  }

  /**
    The second loop of is_(red_)universal: walk v's edges, stopping at the first
    whose colour is not col; count them when there is none.
  */
  method CountEdgesOfColour(G: Graph, v: string, col: Color) returns (allCol: bool, count: nat)
    requires WellFormed(G)
    ensures allCol == AllIncident(G, v, col)
    ensures allCol ==> count == Degree(G, v)
  {
    var N := Neighbours(G, v);
    NeighboursAreEdges(G, v);
    count := 0;
    var i := 0;
    while i < |N|
      invariant 0 <= i <= |N| && count == i
      invariant forall k :: 0 <= k < i ==> G.edges[(v, N[k])] == col
    {
      if G.edges[(v, N[i])] != col {
        return false, count;
      }
      count := count + 1;
      i := i + 1;
    }
    forall w | (v, w) in G.edges ensures G.edges[(v, w)] == col {
      var k :| 0 <= k < |N| && N[k] == w;
    }
    allCol := true;
  }

  /** is_red_universal(v, g). */
  method IsRedUniversal(G: Graph, v: string) returns (b: bool)
    requires WellFormed(G) && v in G.vtype
    ensures b == RedUniversal(G, v)
  {
    b := UniversalWith(G, v, Red);
  }

  /** is_universal(v, g). */
  method IsUniversal(G: Graph, v: string) returns (b: bool)
    requires WellFormed(G) && v in G.vtype
    ensures b == Universal(G, v)
  {
    b := UniversalWith(G, v, Black);
  }

  /**
    In a bipartite graph, a red-universal character is one whose edges are red
    and which is adjacent to exactly the species it is connected to.
  */
  lemma RedUniversalMeans(G: Graph, v: string)
    requires WellFormed(G) && Bipartite(G) && v in G.vtype
    ensures RedUniversal(G, v) <==>
      && G.vtype[v] == Character && AllIncident(G, v, Red)
      && forall s :: (v, s) in G.edges <==> s in G.vtype && G.vtype[s] == Species && Connected(G, v, s)
  {
    if G.vtype[v] == Character {
      ComponentMeans(G, v);
      DegreeCountsComponent(G, v);
    }
  }

  /** The same for universal characters and black edges. */
  lemma UniversalMeans(G: Graph, v: string)
    requires WellFormed(G) && Bipartite(G) && v in G.vtype
    ensures Universal(G, v) <==>
      && G.vtype[v] == Character && AllIncident(G, v, Black)
      && forall s :: (v, s) in G.edges <==> s in G.vtype && G.vtype[s] == Species && Connected(G, v, s)
  {
    if G.vtype[v] == Character {
      ComponentMeans(G, v);
      DegreeCountsComponent(G, v);
    }
  }

  lemma ComponentMeans(G: Graph, v: string)
    requires WellFormed(G) && v in G.vtype
    ensures forall s :: s in ComponentSpecies(G, v) <==> s in G.vtype && G.vtype[s] == Species && Connected(G, v, s)
  {
    forall s ensures s in ComponentSpecies(G, v) <==> s in G.vtype && G.vtype[s] == Species && Connected(G, v, s) {
      ComponentIsConnectivity(G, v, s);
    }
  }

  //---------------------------------------------------------------------------
  // includes, overlap, get_inactive_chars, maximal_characters

  /**
    get_adjacent_species_map(g): each character with the list of its neighbours.
    A character without edges has no entry in the program's map, which reads
    the same as an empty list through Lookup.
  */
  function AdjacentSpeciesMap(G: Graph): map<string, seq<string>>
  {
    map c | c in G.vtype && G.vtype[c] == Character :: Neighbours(G, c)
  }

  /** adj_spec[c]: operator[] gives an empty list for a missing key. */
  function Lookup(adj: map<string, seq<string>>, c: string): seq<string>
  {
    if c in adj then adj[c] else []
  }

  /** Through the map, a character's list is its set of neighbours and any other vertex has none. */
  lemma LookupAdjacentSpecies(G: Graph, c: string)
    requires WellFormed(G)
    ensures forall s :: s in Lookup(AdjacentSpeciesMap(G), c) <==>
      c in G.vtype && G.vtype[c] == Character && (c, s) in G.edges
  {
    NeighboursAreEdges(G, c);
  }

  /** S(c1) includes S(c2). */
  ghost predicate Includes(adj: map<string, seq<string>>, c1: string, c2: string)
  {
    forall s :: s in Lookup(adj, c2) ==> s in Lookup(adj, c1)
  }

  /** includes(c1, c2, adj_spec): every species of c2 is a species of c1. */
  method IncludesSpecies(adj: map<string, seq<string>>, c1: string, c2: string) returns (included: bool)
    ensures included == Includes(adj, c1, c2)
  {
    var L1 := Lookup(adj, c1);
    var L2 := Lookup(adj, c2);
    included := true;
    var i := 0;
    while i < |L2|
      invariant 0 <= i <= |L2|
      invariant forall k :: 0 <= k < i ==> L2[k] in L1
    {
      if !Contains(L1, L2[i]) {
        included := false;
        break;
      }
      i := i + 1;
    }
  }

  /** overlap(c1, c2, adj_spec): neither includes the other, and they share a species. */
  method OverlapSpecies(adj: map<string, seq<string>>, c1: string, c2: string) returns (b: bool)
    ensures b <==> !Includes(adj, c1, c2) && !Includes(adj, c2, c1) &&
                   exists s :: s in Lookup(adj, c1) && s in Lookup(adj, c2)
  {
    var in12 := IncludesSpecies(adj, c1, c2);
    var in21 := IncludesSpecies(adj, c2, c1);
    if in12 || in21 {
      return false;
    }
    var L1 := Lookup(adj, c1);
    var L2 := Lookup(adj, c2);
    var i := 0;
    while i < |L2|
      invariant 0 <= i <= |L2|
      invariant forall k :: 0 <= k < i ==> L2[k] !in L1
    {
      if Contains(L1, L2[i]) {
        return true;
      }
      i := i + 1;
    }
    b := false;
  }

  /** overlap is symmetric. */
  lemma OverlapSymmetric(adj: map<string, seq<string>>, c1: string, c2: string)
    ensures (!Includes(adj, c1, c2) && !Includes(adj, c2, c1) && exists s :: s in Lookup(adj, c1) && s in Lookup(adj, c2))
        <==> (!Includes(adj, c2, c1) && !Includes(adj, c1, c2) && exists s :: s in Lookup(adj, c2) && s in Lookup(adj, c1))
  {
  }

  /** The inactive characters of vs, in order. */
  ghost function InactiveAmong(G: Graph, vs: seq<string>): (r: seq<string>)
    ensures forall c :: c in r <==> c in vs && c in G.vtype && G.vtype[c] == Character && !Active(G, c)
  {
    if vs == [] then []
    else
      var c := vs[|vs| - 1];
      assert vs == vs[..|vs| - 1] + [c];
      InactiveAmong(G, vs[..|vs| - 1]) + (if c in G.vtype && G.vtype[c] == Character && !Active(G, c) then [c] else [])
  }

  lemma InactiveAmongSnoc(G: Graph, vs: seq<string>, c: string)
    ensures InactiveAmong(G, vs + [c]) == InactiveAmong(G, vs) + (if c in G.vtype && G.vtype[c] == Character && !Active(G, c) then [c] else [])
  {
    assert (vs + [c])[..|vs|] == vs;
  }

  /** get_inactive_chars(g): the inactive characters in vertex order. */
  method InactiveChars(G: Graph) returns (r: seq<string>)
    requires WellFormed(G)
    ensures r == InactiveAmong(G, G.vertices)
  {
    r := [];
    var i := 0;
    while i < |G.vertices|
      invariant 0 <= i <= |G.vertices|
      invariant r == InactiveAmong(G, G.vertices[..i])
    {
      var v := G.vertices[i];
      assert v in G.vtype;
      TakeSnoc(G.vertices, i);
      InactiveAmongSnoc(G, G.vertices[..i], v);
      if G.vtype[v] == Character {
        var inactive := IsInactive(G, v);
        if inactive {
          r := r + [v];
        }
      }
      i := i + 1;
    }
    assert G.vertices[..i] == G.vertices;
  }

  /** No other character of I includes v. */
  ghost predicate MaximalIn(adj: map<string, seq<string>>, I: seq<string>, v: string)
  {
    forall u :: u in I && u != v ==> !Includes(adj, u, v)
  }

  /** The characters of vs that are maximal in I, in order. */
  ghost function MaximalAmong(adj: map<string, seq<string>>, I: seq<string>, vs: seq<string>): (r: seq<string>)
    ensures forall c :: c in r <==> c in vs && MaximalIn(adj, I, c)
  {
    if vs == [] then []
    else
      var c := vs[|vs| - 1];
      assert vs == vs[..|vs| - 1] + [c];
      MaximalAmong(adj, I, vs[..|vs| - 1]) + (if MaximalIn(adj, I, c) then [c] else [])
  }

  /** maximal_characters(g) as a value: the inactive characters no other inactive character includes. */
  ghost function MaximalCharacters(G: Graph): seq<string>
  {
    var I := InactiveAmong(G, G.vertices);
    MaximalAmong(AdjacentSpeciesMap(G), I, I)
  }

  /** maximal_characters(g): for each inactive v, look for an inactive u != v that includes it. */
  method ComputeMaximalCharacters(G: Graph) returns (cm: seq<string>)
    requires WellFormed(G)
    ensures cm == MaximalCharacters(G)
  {
    var adj := AdjacentSpeciesMap(G);
    var I := InactiveChars(G);
    cm := [];
    var i := 0;
    while i < |I|
      invariant 0 <= i <= |I|
      invariant cm == MaximalAmong(adj, I, I[..i])
    {
      var v := I[i];
      var maximal := IsMaximalIn(adj, I, v);
      TakeSnoc(I, i);
      MaximalAmongSnoc(adj, I, I[..i], v);
      if maximal {
        cm := cm + [v];
      }
      i := i + 1;
    }
    assert I[..i] == I;
  }

  lemma MaximalAmongSnoc(adj: map<string, seq<string>>, I: seq<string>, vs: seq<string>, c: string)
    ensures MaximalAmong(adj, I, vs + [c]) == MaximalAmong(adj, I, vs) + (if MaximalIn(adj, I, c) then [c] else [])
  {
    assert (vs + [c])[..|vs|] == vs;
  }

  /** The inner loop of maximal_characters: stop at the first other u that includes v. */
  method IsMaximalIn(adj: map<string, seq<string>>, I: seq<string>, v: string) returns (maximal: bool)
    ensures maximal == MaximalIn(adj, I, v)
  {
    maximal := true;
    var j := 0;
    while j < |I|
      invariant 0 <= j <= |I|
      invariant forall k :: 0 <= k < j && I[k] != v ==> !Includes(adj, I[k], v)
    {
      var u := I[j];
      if v != u {
        var incl := IncludesSpecies(adj, u, v);
        if incl {
          maximal := false;
          break;
        }
      }
      j := j + 1;
    }
  }

  /**
    In graph terms: c is maximal exactly when it is an inactive character and no
    other inactive character is adjacent to every species c is adjacent to.
  */
  lemma MaximalCharactersMeans(G: Graph, c: string)
    requires WellFormed(G)
    ensures c in MaximalCharacters(G) <==>
      && c in G.vtype && G.vtype[c] == Character && !Active(G, c)
      && forall u :: u in G.vtype && G.vtype[u] == Character && !Active(G, u) && u != c ==>
           exists s :: (c, s) in G.edges && (u, s) !in G.edges
  {
    var adj := AdjacentSpeciesMap(G);
    var I := InactiveAmong(G, G.vertices);
    if c in G.vtype && G.vtype[c] == Character && !Active(G, c) {
      forall u | u in G.vtype && G.vtype[u] == Character
        ensures Includes(adj, u, c) <==> forall s :: (c, s) in G.edges ==> (u, s) in G.edges
      {
        IncludesMeans(G, u, c);
      }
      assert c in I;
      assert MaximalIn(adj, I, c) <==> forall u :: u in I && u != c ==> !Includes(adj, u, c);
    }
  }

  /** For two characters, includes(u, c) says u is adjacent to every species c is adjacent to. */
  lemma IncludesMeans(G: Graph, u: string, c: string)
    requires WellFormed(G)
    requires u in G.vtype && G.vtype[u] == Character && c in G.vtype && G.vtype[c] == Character
    ensures Includes(AdjacentSpeciesMap(G), u, c) <==> forall s :: (c, s) in G.edges ==> (u, s) in G.edges
  {
    LookupAdjacentSpecies(G, u);
    LookupAdjacentSpecies(G, c);
  }

  /** Two inactive characters with the same species exclude each other from the maximal ones. */
  lemma EqualCharactersNotMaximal(G: Graph, c: string, u: string)
    requires WellFormed(G) && c != u
    requires c in G.vtype && G.vtype[c] == Character && !Active(G, c)
    requires u in G.vtype && G.vtype[u] == Character && !Active(G, u)
    requires forall s :: (c, s) in G.edges <==> (u, s) in G.edges
    ensures c !in MaximalCharacters(G) && u !in MaximalCharacters(G)
  {
    MaximalCharactersMeans(G, c);
    MaximalCharactersMeans(G, u);
  }

  //---------------------------------------------------------------------------
  // has_red_sigmapath, has_red_sigmagraph

  /**
    A red sigma-path between c0 and c1: a species joined to both by red edges
    (the junction), a species joined to c0 by a red edge and not adjacent to
    c1, and a species joined to c1 by a red edge and not adjacent to c0.
  */
  ghost predicate SigmaPath(G: Graph, c0: string, c1: string)
  {
    && (exists s :: RedEdge(G, c0, s) && RedEdge(G, c1, s))
    && (exists s :: RedEdge(G, c0, s) && (c1, s) !in G.edges)
    && (exists s :: RedEdge(G, c1, s) && (c0, s) !in G.edges)
  }

  /** The two ends of a red sigma-path play symmetric roles. */
  lemma SigmaPathSymmetric(G: Graph, c0: string, c1: string)
    ensures SigmaPath(G, c0, c1) <==> SigmaPath(G, c1, c0)
  {
  }

  /**
    has_red_sigmapath(c0, c1, g): walk c0's red edges looking for the junction
    (the first species red to both) and for a species not adjacent to c1, then
    walk c1's red edges looking for a species other than the junction not
    adjacent to c0.
  */
  method HasRedSigmapath(G: Graph, c0: string, c1: string) returns (b: bool)
    requires NamesListed(G) && EdgesInside(G)
    ensures b == SigmaPath(G, c0, c1)
  {
    var junction, halfSigma := SigmaJunction(G, c0, c1);
    if !halfSigma || junction.None? {
      return false;
    }
    var N1 := Neighbours(G, c1);
    NeighboursAreEdges(G, c1);
    var i := 0;
    while i < |N1|
      invariant 0 <= i <= |N1|
      invariant forall k :: 0 <= k < i ==> !(RedEdge(G, c1, N1[k]) && (c0, N1[k]) !in G.edges)
    {
      var s := N1[i];
      if G.edges[(c1, s)] != Red || Some(s) == junction {
        i := i + 1;
        continue;
      }
      if (c0, s) in G.edges {
        i := i + 1;
        continue;
      }
      return true;
    }
    forall s | RedEdge(G, c1, s) ensures (c0, s) in G.edges {
      var k :| 0 <= k < |N1| && N1[k] == s;
    }
    b := false;
  }

  /**
    The first loop of has_red_sigmapath.  The junction is the first species
    red to both ends (None plays the null vertex); halfSigma records a species
    red to c0 and not adjacent to c1.  The walk stops once it has both.
  */
  method SigmaJunction(G: Graph, c0: string, c1: string) returns (junction: Option<string>, halfSigma: bool)
    requires NamesListed(G) && EdgesInside(G)
    ensures junction.Some? <==> exists s :: RedEdge(G, c0, s) && RedEdge(G, c1, s)
    ensures junction.Some? ==> RedEdge(G, c0, junction.value) && RedEdge(G, c1, junction.value)
    ensures halfSigma <==> exists s :: RedEdge(G, c0, s) && (c1, s) !in G.edges
  {
    var N0 := Neighbours(G, c0);
    NeighboursAreEdges(G, c0);
    junction, halfSigma := None, false;
    var i := 0;
    while i < |N0|
      invariant 0 <= i <= |N0|
      invariant junction.Some? ==> RedEdge(G, c0, junction.value) && RedEdge(G, c1, junction.value)
      invariant junction.None? ==> forall k :: 0 <= k < i ==> !(RedEdge(G, c0, N0[k]) && RedEdge(G, c1, N0[k]))
      invariant halfSigma ==> exists s :: RedEdge(G, c0, s) && (c1, s) !in G.edges
      invariant !halfSigma ==> forall k :: 0 <= k < i ==> !(RedEdge(G, c0, N0[k]) && (c1, N0[k]) !in G.edges)
    {
      var s := N0[i];
      if G.edges[(c0, s)] != Red {
        i := i + 1;
        continue;
      }
      if junction.None? && (c1, s) in G.edges && G.edges[(c1, s)] == Red {
        junction := Some(s);
        i := i + 1;
        continue;
      }
      if (c1, s) in G.edges {
        i := i + 1;
        continue;
      }
      halfSigma := true;
      if junction.Some? {
        break;
      }
      i := i + 1;
    }
    if junction.None? {
      forall s | RedEdge(G, c0, s) ensures !RedEdge(G, c1, s) {
        var k :| 0 <= k < |N0| && N0[k] == s;
      }
    }
    if !halfSigma {
      forall s | RedEdge(G, c0, s) ensures (c1, s) in G.edges {
        var k :| 0 <= k < |N0| && N0[k] == s;
      }
    }
  }

  /** A listed vertex that is active. */
  ghost predicate ActiveVertex(G: Graph, v: string)
  {
    v in G.vtype && Active(G, v)
  }

  /** The i-th and j-th vertices, i before j, are active and joined by a red sigma-path. */
  ghost predicate SigmaPair(G: Graph, i: int, j: int)
  {
    && 0 <= i < j < |G.vertices|
    && ActiveVertex(G, G.vertices[i]) && ActiveVertex(G, G.vertices[j])
    && SigmaPath(G, G.vertices[i], G.vertices[j])
  }

  /** has_red_sigmagraph's answer: some ordered pair of vertices is a sigma pair. */
  ghost predicate SigmaGraph(G: Graph)
  {
    exists i, j :: SigmaPair(G, i, j)
  }

  /**
    The order of the vertex list does not matter: a graph holds a red
    sigma-graph exactly when two distinct active vertices are joined by a red
    sigma-path.
  */
  lemma SigmaGraphMeans(G: Graph)
    requires WellFormed(G)
    ensures SigmaGraph(G) <==>
      exists u, w :: u != w && ActiveVertex(G, u) && ActiveVertex(G, w) && SigmaPath(G, u, w)
  {
    var vs := G.vertices;
    if exists u, w :: u != w && ActiveVertex(G, u) && ActiveVertex(G, w) && SigmaPath(G, u, w) {
      var u, w :| u != w && ActiveVertex(G, u) && ActiveVertex(G, w) && SigmaPath(G, u, w);
      var i :| 0 <= i < |vs| && vs[i] == u;
      var j :| 0 <= j < |vs| && vs[j] == w;
      if i < j {
        assert SigmaPair(G, i, j);
      } else {
        SigmaPathSymmetric(G, u, w);
        assert SigmaPair(G, j, i);
      }
    }
    if SigmaGraph(G) {
      var i, j :| SigmaPair(G, i, j);
      assert vs[i] != vs[j];
    }
  }

  /** Two distinct positions of the vertex list hold active vertices. */
  ghost predicate TwoActive(G: Graph)
  {
    exists k1, k2 :: 0 <= k1 < k2 < |G.vertices| && ActiveVertex(G, G.vertices[k1]) && ActiveVertex(G, G.vertices[k2])
  }

  /**
    has_red_sigmagraph: first count the active vertices, stopping at two;
    with fewer than two there is no pair to test.  Then test every pair of
    active vertices in list order with has_red_sigmapath.
  */
  method HasRedSigmagraph(G: Graph) returns (b: bool)
    requires WellFormed(G)
    ensures b == SigmaGraph(G)
  {
    var two := CountActivesToTwo(G);
    if !two {
      assert forall k1, k2 :: !SigmaPair(G, k1, k2);
      return false;
    }
    var vs := G.vertices;
    var i := 0;
    while i < |vs|
      invariant 0 <= i <= |vs|
      invariant forall k1, k2 :: 0 <= k1 < i ==> !SigmaPair(G, k1, k2)
    {
      var found := SigmaPairFrom(G, i);
      if found {
        return true;
      }
      i := i + 1;
    }
    b := false;
  }

  /** The first loop of has_red_sigmagraph: are there at least two active vertices? */
  method CountActivesToTwo(G: Graph) returns (two: bool)
    requires WellFormed(G)
    ensures two == TwoActive(G)
  {
    var vs := G.vertices;
    ghost var act := seq(|vs|, k requires 0 <= k < |vs| => ActiveVertex(G, vs[k]));
    var count := 0;
    var first := 0;
    var i := 0;
    while i < |vs|
      invariant 0 <= i <= |vs| && 0 <= count <= 1
      invariant count == 0 ==> forall k :: 0 <= k < i ==> !act[k]
      invariant count == 1 ==> 0 <= first < i && act[first]
      invariant count == 1 ==> forall k :: 0 <= k < i && k != first ==> !act[k]
    {
      var active := IsActive(G, vs[i]);
      assert active == act[i];
      if active && count == 1 {
        // count reaches two
        assert ActiveVertex(G, vs[first]) && ActiveVertex(G, vs[i]);
        return true;
      }
      if active {
        count, first := 1, i;
      }
      i := i + 1;
    }
    forall k1, k2 | 0 <= k1 < k2 < |vs| ensures !(ActiveVertex(G, vs[k1]) && ActiveVertex(G, vs[k2])) {
      assert !act[k1] || !act[k2];
    }
    two := false;
  }

  /** The inner loop of has_red_sigmagraph: vertex i, if active, against every active vertex after it. */
  method SigmaPairFrom(G: Graph, i: nat) returns (found: bool)
    requires WellFormed(G) && i < |G.vertices|
    ensures found == exists j :: SigmaPair(G, i, j)
  {
    var vs := G.vertices;
    var active := IsActive(G, vs[i]);
    if !active {
      return false;
    }
    var j := i + 1;
    while j < |vs|
      invariant i < j <= |vs|
      invariant forall k :: i < k < j ==> !SigmaPair(G, i, k)
    {
      var other := IsActive(G, vs[j]);
      if other {
        var path := HasRedSigmapath(G, vs[i], vs[j]);
        if path {
          assert SigmaPair(G, i, j);
          return true;
        }
      }
      j := j + 1;
    }
    found := false;
  }

  //---------------------------------------------------------------------------
  // exists(source, target), is_empty

  /**
    exists(source, target, g): both names must be in the graph, then the
    out-edges of source are searched for target.
  */
  method ExistsEdge(G: Graph, u: string, w: string) returns (b: bool)
    requires NamesListed(G) && EdgesInside(G)
    ensures b == HasEdge(G, u, w)
    ensures b <==> (u, w) in G.edges
  {
    if u !in G.vtype || w !in G.vtype {
      return false;
    }
    var N := Neighbours(G, u);
    NeighboursAreEdges(G, u);
    var i := 0;
    while i < |N|
      invariant 0 <= i <= |N|
      invariant forall k :: 0 <= k < i ==> N[k] != w
    {
      if N[i] == w {
        return true;
      }
      i := i + 1;
    }
    b := false;
  }

  /** is_empty(g): no vertices. */
  predicate IsEmpty(G: Graph)
  {
    |G.vertices| == 0
  }

  /** In a valid graph, empty means both counters are zero and no name is mapped. */
  lemma IsEmptyMeans(G: Graph)
    requires Valid(G)
    ensures IsEmpty(G) <==> G.numSpecies + G.numCharacters == 0
    ensures IsEmpty(G) ==> G.vtype == map[] && G.edges == map[]
  {
    CountersCoverVertices(G);
    if IsEmpty(G) {
      assert G.vtype.Keys == {};
      assert G.edges.Keys == {};
    }
  }
}
