/**
 * The LexBFS library's graph: vertices 0..n-1, an edge vector, one list of
 * incident edge indices per vertex and an n-by-n adjacency matrix; a
 * lexicographic breadth-first search by partition refinement and the
 * chordality test built on it (Algorithm 3 of Habib, McConnell, Paul and
 * Viennot, "Lex-BFS and partition refinement").
 */
module LexGraph {
  import opened Seqs
  import opened LexEdge

  /**
   * One refinement step on one class: the members in N (the neighbours of the
   * vertex just numbered) form a new class placed before the others; a class
   * left empty disappears.
   */
  function RefineClass(S: seq<int>, N: set<int>): seq<seq<int>>
  {
    (if Keep(S, N) == [] then [] else [Keep(S, N)]) + (if Drop(S, N) == [] then [] else [Drop(S, N)])
  }

  /** The refinement of every class of the partition, in order. */
  function Refine(L: seq<seq<int>>, N: set<int>): seq<seq<int>>
  {
    if L == [] then [] else RefineClass(L[0], N) + Refine(L[1..], N)
  }

  lemma {:induction false} RefineAppend(A: seq<seq<int>>, B: seq<seq<int>>, N: set<int>)
    ensures Refine(A + B, N) == Refine(A, N) + Refine(B, N)
  {
    if A == [] {
      assert A + B == B;
    } else {
      assert (A + B)[0] == A[0];
      assert (A + B)[1..] == A[1..] + B;
      RefineAppend(A[1..], B, N);
    }
  }

  /** Refining one class keeps its vertices and leaves no empty class. */
  lemma RefineClassPreserves(S: seq<int>, N: set<int>)
    ensures multiset(Flatten(RefineClass(S, N))) == multiset(S)
    ensures forall c :: 0 <= c < |RefineClass(S, N)| ==> RefineClass(S, N)[c] != []
  {
    KeepDropSplit(S, N);
    NonEmptyPair(Keep(S, N), Drop(S, N));
  }

  /** The classes K and D, each kept only when non-empty, hold exactly the members of both. */
  lemma NonEmptyPair(K: seq<int>, D: seq<int>)
    ensures var P := (if K == [] then [] else [K]) + (if D == [] then [] else [D]);
            && multiset(Flatten(P)) == multiset(K) + multiset(D)
            && forall c :: 0 <= c < |P| ==> P[c] != []
  {
    if K != [] && D != [] {
      assert Flatten([K, D]) == K + Flatten([D]);
      assert Flatten([D]) == D + Flatten([]);
    } else if K != [] {
      assert Flatten([K]) == K + Flatten([]);
    } else if D != [] {
      assert Flatten([D]) == D + Flatten([]);
    }
  }

  /** Refinement keeps exactly the same vertices and leaves no empty class. */
  lemma {:induction false} RefinePreserves(L: seq<seq<int>>, N: set<int>)
    ensures multiset(Flatten(Refine(L, N))) == multiset(Flatten(L))
    ensures forall c :: 0 <= c < |Refine(L, N)| ==> Refine(L, N)[c] != []
  {
    if L != [] {
      var head, tail := RefineClass(L[0], N), Refine(L[1..], N);
      RefinePreserves(L[1..], N);
      RefineClassPreserves(L[0], N);
      FlattenAppend(head, tail);
      assert Refine(L, N) == head + tail;
      forall c | 0 <= c < |head + tail| ensures (head + tail)[c] != [] {
        if c >= |head| {
          assert (head + tail)[c] == tail[c - |head|];
        }
      }
    }
  }

  /** A numbering of the vertices: pi[0..n) is a permutation of 0..n-1 and pi[n] = n. */
  predicate IsNumbering(pi: seq<int>, n: nat)
  {
    && |pi| == n + 1
    && pi[n] == n
    && (forall v :: 0 <= v < n ==> 0 <= pi[v] < n)
    && (forall v, w :: 0 <= v < w < n ==> pi[v] != pi[w])
  }

  /** The members of ns numbered after position px of pi: the right-neighbours. */
  function RightOf(ns: seq<int>, pi: seq<int>, px: int): (r: seq<int>)
    requires forall k :: 0 <= k < |ns| ==> 0 <= ns[k] < |pi|
    ensures forall k :: 0 <= k < |r| ==> r[k] in ns && pi[r[k]] > px
  {
    if ns == [] then []
    else
      var v := ns[|ns| - 1];
      RightOf(ns[..|ns| - 1], pi, px) + (if pi[v] > px then [v] else [])
  }

  /**
   * The parent pointer: starting at the root n, every member numbered earlier
   * than the current choice replaces it, scanning left to right.
   */
  function Leftmost(rn: seq<int>, pi: seq<int>, root: nat): (r: int)
    requires root < |pi|
    requires forall k :: 0 <= k < |rn| ==> 0 <= rn[k] < |pi|
    ensures r == root || r in rn
    ensures 0 <= r < |pi|
  {
    if rn == [] then root
    else
      var p := Leftmost(rn[..|rn| - 1], pi, root);
      if pi[rn[|rn| - 1]] < pi[p] then rn[|rn| - 1] else p
  }

  /**
   * When every candidate is numbered below the root, the parent is the root
   * exactly for an empty list, and otherwise the member with the smallest number.
   */
  lemma {:induction false} LeftmostIsMinimum(rn: seq<int>, pi: seq<int>, root: nat)
    requires root < |pi|
    requires forall k :: 0 <= k < |rn| ==> 0 <= rn[k] < |pi| && pi[rn[k]] < pi[root]
    ensures rn == [] <==> Leftmost(rn, pi, root) == root
    ensures rn != [] ==> Leftmost(rn, pi, root) in rn
    ensures forall k :: 0 <= k < |rn| ==> pi[Leftmost(rn, pi, root)] <= pi[rn[k]]
  {
    if rn != [] {
      var init := rn[..|rn| - 1];
      LeftmostIsMinimum(init, pi, root);
      var p := Leftmost(init, pi, root);
      forall k | 0 <= k < |rn|
        ensures pi[Leftmost(rn, pi, root)] <= pi[rn[k]]
      {
        if k < |init| {
          assert rn[k] == init[k];
        }
      }
    }
  }

  /** The parts of a graph its neighbourhoods are read from: n, Adj and E. */
  datatype Incidence = Incidence(n: nat, adj: seq<seq<int>>, edges: seq<Edge>)

  /** Every incidence entry of a vertex names an existing edge with that vertex and an in-range vertex as endpoints. */
  ghost predicate WellIndexed(g: Incidence)
  {
    && |g.adj| == g.n
    && forall p, k :: 0 <= p < g.n && 0 <= k < |g.adj[p]| ==>
         && 0 <= g.adj[p][k] < |g.edges|
         && (g.edges[g.adj[p][k]].u == p || g.edges[g.adj[p][k]].v == p)
         && 0 <= g.edges[g.adj[p][k]].u < g.n && 0 <= g.edges[g.adj[p][k]].v < g.n
  }

  /** q is reached from p through one of p's incident edges. */
  ghost predicate Linked(g: Incidence, p: int, q: int)
    requires 0 <= p < |g.adj|
  {
    exists k :: 0 <= k < |g.adj[p]| && 0 <= g.adj[p][k] < |g.edges| && OtherEnd(g.edges[g.adj[p][k]], p) == q
  }

  /** The graph after insertEdge(u, v): edge (u, v) appended to E and its index to the lists of u and v. */
  function WithEdge(g: Incidence, u: int, v: int): Incidence
    requires 0 <= u < |g.adj| && 0 <= v < |g.adj|
  {
    var i := |g.edges|;
    var adj1 := g.adj[u := g.adj[u] + [i]];
    Incidence(g.n, adj1[v := adj1[v] + [i]], g.edges + [Edge(u, v)])
  }

  /** insertEdge's update of E and Adj keeps the lists well indexed and links exactly one more pair, both ways. */
  lemma InsertKeepsLinks(g: Incidence, u: int, v: int)
    requires WellIndexed(g) && 0 <= u < g.n && 0 <= v < g.n
    ensures WellIndexed(WithEdge(g, u, v))
    ensures forall w :: 0 <= w < g.n ==>
              |WithEdge(g, u, v).adj[w]| == |g.adj[w]| + (if w == u then 1 else 0) + (if w == v then 1 else 0)
    ensures forall p, q :: 0 <= p < g.n ==>
              (Linked(WithEdge(g, u, v), p, q) <==> Linked(g, p, q) || (p == u && q == v) || (p == v && q == u))
  {
    forall p | 0 <= p < g.n {
      WithEdgeEntries(g, u, v, p);
    }
    forall p, q | 0 <= p < g.n
      ensures Linked(WithEdge(g, u, v), p, q) <==> Linked(g, p, q) || (p == u && q == v) || (p == v && q == u)
    {
      WithEdgeLinks(g, u, v, p, q);
    }
  }

  /** After insertEdge, p's list is its old list, followed by the new edge's index when p is an endpoint. */
  lemma WithEdgeEntries(g: Incidence, u: int, v: int, p: int)
    requires WellIndexed(g) && 0 <= u < g.n && 0 <= v < g.n && 0 <= p < g.n
    ensures var g2 := WithEdge(g, u, v);
            && |g2.adj| == g.n && |g2.edges| == |g.edges| + 1
            && g2.edges[|g.edges|] == Edge(u, v)
            && g2.adj[p][..|g.adj[p]|] == g.adj[p]
            && (forall k :: |g.adj[p]| <= k < |g2.adj[p]| ==> g2.adj[p][k] == |g.edges| && (p == u || p == v))
            && (p == u || p == v ==> |g2.adj[p]| > |g.adj[p]|)
            && (forall k :: 0 <= k < |g2.adj[p]| ==>
                  && 0 <= g2.adj[p][k] < |g2.edges|
                  && (g2.edges[g2.adj[p][k]].u == p || g2.edges[g2.adj[p][k]].v == p)
                  && 0 <= g2.edges[g2.adj[p][k]].u < g.n && 0 <= g2.edges[g2.adj[p][k]].v < g.n)
  {
    var g2 := WithEdge(g, u, v);
    forall k | 0 <= k < |g2.adj[p]|
      ensures if k < |g.adj[p]| then g2.adj[p][k] == g.adj[p][k] else g2.adj[p][k] == |g.edges| && (p == u || p == v)
    {
    }
  }

  /** After insertEdge, p reaches q exactly when it did before or (p, q) is the new edge, either way round. */
  lemma WithEdgeLinks(g: Incidence, u: int, v: int, p: int, q: int)
    requires 0 <= u < |g.adj| && 0 <= v < |g.adj| && 0 <= p < |g.adj|
    requires forall k :: 0 <= k < |g.adj[p]| ==> 0 <= g.adj[p][k] < |g.edges|
    ensures Linked(WithEdge(g, u, v), p, q) <==> Linked(g, p, q) || (p == u && q == v) || (p == v && q == u)
  {
    if Linked(WithEdge(g, u, v), p, q) {
      LinkedAfterInsert(g, u, v, p, q);
    }
    if Linked(g, p, q) {
      LinkedBeforeInsert(g, u, v, p, q);
    }
    if (p == u && q == v) || (p == v && q == u) {
      var g2 := WithEdge(g, u, v);
      var k := |g2.adj[p]| - 1;
      assert g2.adj[p][k] == |g.edges| && OtherEnd(g2.edges[|g.edges|], p) == q;
    }
  }

  /** A link after insertEdge is an old link or the new edge. */
  lemma LinkedAfterInsert(g: Incidence, u: int, v: int, p: int, q: int)
    requires 0 <= u < |g.adj| && 0 <= v < |g.adj| && 0 <= p < |g.adj|
    requires forall k :: 0 <= k < |g.adj[p]| ==> 0 <= g.adj[p][k] < |g.edges|
    requires Linked(WithEdge(g, u, v), p, q)
    ensures Linked(g, p, q) || (p == u && q == v) || (p == v && q == u)
  {
    var g2 := WithEdge(g, u, v);
    var k :| 0 <= k < |g2.adj[p]| && 0 <= g2.adj[p][k] < |g2.edges| && OtherEnd(g2.edges[g2.adj[p][k]], p) == q;
    if k < |g.adj[p]| {
      assert g2.adj[p][k] == g.adj[p][k];
      assert g.edges[g.adj[p][k]] == g2.edges[g2.adj[p][k]];
    } else {
      assert g2.adj[p][k] == |g.edges| && (p == u || p == v);
    }
  }

  /** insertEdge removes no link. */
  lemma LinkedBeforeInsert(g: Incidence, u: int, v: int, p: int, q: int)
    requires 0 <= u < |g.adj| && 0 <= v < |g.adj| && 0 <= p < |g.adj|
    requires Linked(g, p, q)
    ensures Linked(WithEdge(g, u, v), p, q)
  {
    var g2 := WithEdge(g, u, v);
    var k :| 0 <= k < |g.adj[p]| && 0 <= g.adj[p][k] < |g.edges| && OtherEnd(g.edges[g.adj[p][k]], p) == q;
    assert g2.adj[p][k] == g.adj[p][k];
    assert g2.edges[g2.adj[p][k]] == g.edges[g.adj[p][k]];
  }

  /** The first k neighbours of x, in the order of its incidence list. */
  ghost function NeighboursUpTo(g: Incidence, x: int, k: nat): (r: seq<int>)
    requires WellIndexed(g) && 0 <= x < g.n && k <= |g.adj[x]|
    ensures |r| == k && forall t :: 0 <= t < k ==> 0 <= r[t] < g.n
  {
    if k == 0 then [] else NeighboursUpTo(g, x, k - 1) + [OtherEnd(g.edges[g.adj[x][k - 1]], x)]
  }

  lemma {:induction false} NeighboursPrefix(g: Incidence, x: int, k: nat, i: nat)
    requires WellIndexed(g) && 0 <= x < g.n && i < k <= |g.adj[x]|
    ensures NeighboursUpTo(g, x, k)[..i] == NeighboursUpTo(g, x, i)
    ensures NeighboursUpTo(g, x, k)[i] == OtherEnd(g.edges[g.adj[x][i]], x)
  {
    if i < k - 1 {
      NeighboursPrefix(g, x, k - 1, i);
      assert NeighboursUpTo(g, x, k)[..k - 1] == NeighboursUpTo(g, x, k - 1);
    }
  }

  /** RN(x): the neighbours of x numbered after x; the root n has none. */
  ghost function RN(g: Incidence, pi: seq<int>, x: int): (r: seq<int>)
    requires WellIndexed(g) && |pi| == g.n + 1 && 0 <= x <= g.n
    ensures forall k :: 0 <= k < |r| ==> 0 <= r[k] < g.n
  {
    if x == g.n then [] else RightOf(NeighboursUpTo(g, x, |g.adj[x]|), pi, pi[x])
  }

  /** parent(x): the member of RN(x) numbered first, or the root n. */
  ghost function Parent(g: Incidence, pi: seq<int>, x: int): (r: int)
    requires WellIndexed(g) && |pi| == g.n + 1 && 0 <= x <= g.n
    ensures 0 <= r <= g.n
  {
    Leftmost(RN(g, pi, x), pi, g.n)
  }

  /** The test of Algorithm 3: RN(x) without parent(x) lies inside RN(parent(x)). */
  ghost predicate ParentCovers(g: Incidence, pi: seq<int>, x: int)
    requires WellIndexed(g) && |pi| == g.n + 1 && 0 <= x < g.n
  {
    forall k :: 0 <= k < |RN(g, pi, x)| ==>
      RN(g, pi, x)[k] == Parent(g, pi, x) || RN(g, pi, x)[k] in RN(g, pi, Parent(g, pi, x))
  }

  ghost predicate PerfectElimination(g: Incidence, pi: seq<int>)
    requires WellIndexed(g) && |pi| == g.n + 1
  {
    forall x :: 0 <= x < g.n ==> ParentCovers(g, pi, x)
  }

  /** For a numbering, parent(x) is the root exactly when x has no right-neighbour, and otherwise its right-neighbour numbered first. */
  lemma ParentIsFirstRightNeighbour(g: Incidence, pi: seq<int>, x: int)
    requires WellIndexed(g) && IsNumbering(pi, g.n) && 0 <= x < g.n
    ensures Parent(g, pi, x) == g.n <==> RN(g, pi, x) == []
    ensures RN(g, pi, x) != [] ==> Parent(g, pi, x) in RN(g, pi, x)
    ensures forall k :: 0 <= k < |RN(g, pi, x)| ==> pi[Parent(g, pi, x)] <= pi[RN(g, pi, x)[k]]
  {
    LeftmostIsMinimum(RN(g, pi, x), pi, g.n);
  }

  /** A graph without edges passes the test under every numbering. */
  lemma EdgelessIsChordal(g: Incidence, pi: seq<int>)
    requires WellIndexed(g) && |pi| == g.n + 1
    requires forall x :: 0 <= x < g.n ==> g.adj[x] == []
    ensures PerfectElimination(g, pi)
  {
    forall x | 0 <= x < g.n ensures ParentCovers(g, pi, x) {
      assert NeighboursUpTo(g, x, |g.adj[x]|) == [];
    }
  }

  class Graph {
    const n: nat
    const m: nat
    /** Adj: for each vertex, the indices in `edges` of its incident edges. */
    var adj: seq<seq<int>>
    /** E: every edge ever inserted, after m default placeholders. */
    var edges: seq<Edge>
    /** A: the adjacency matrix Lex-BFS consults. */
    const a: array2<bool>

    /** The vertex count, Adj and E as one value. */
    function Shape(): Incidence
      reads this
    {
      Incidence(n, adj, edges)
    }

    /** The edge lists are well indexed and A is n by n. */
    ghost predicate Valid()
      reads this, a
    {
      && WellIndexed(Shape())
      && a.Length0 == n && a.Length1 == n
    }

    /** A marks exactly the pairs linked by an edge: the two views of the graph agree. */
    ghost predicate MatrixMatches()
      reads this, a
      requires Valid()
    {
      forall p, q :: 0 <= p < n && 0 <= q < n ==> (a[p, q] <==> Linked(Shape(), p, q))
    }

    /** Graph(n, m): n empty incidence lists, m placeholder edges and an all-false matrix. */
    constructor (n: nat, m: nat)
      ensures Valid() && MatrixMatches() && this.n == n && this.m == m
      ensures adj == seq(n, _ => []) && edges == seq(m, _ => DefaultEdge())
      ensures fresh(a) && forall p, q :: 0 <= p < n && 0 <= q < n ==> !a[p, q]
    {
      var A := new bool[n, n];
      var i := 0;
      while i < n
        invariant 0 <= i <= n
        invariant forall p, q :: 0 <= p < i && 0 <= q < n ==> !A[p, q]
      {
        var j := 0;
        while j < n
          invariant 0 <= j <= n
          invariant forall p, q :: 0 <= p < i && 0 <= q < n ==> !A[p, q]
          invariant forall q :: 0 <= q < j ==> !A[i, q]
        {
          A[i, j] := false;
          j := j + 1;
        }
        i := i + 1;
      }
      this.n := n;
      this.m := m;
      adj := seq(n, _ => []);
      edges := seq(m, _ => DefaultEdge());
      a := A;
    }

    /** Number of edges incident to u (a self-loop counts twice). */
    function Degree(u: int): nat
      reads this
      requires 0 <= u < |adj|
    {
      |adj[u]|
    }

    /** The end opposite u of u's i-th incident edge: a vertex A marks as adjacent to u. */
    function GetIthNeighbour(u: int, i: int): (r: int)
      reads this, a
      requires Valid() && 0 <= u < n && 0 <= i < Degree(u)
      ensures 0 <= r < n
      ensures var e := edges[adj[u][i]]; (e.u == u && r == e.v) || (e.v == u && r == e.u)
    {
      OtherEnd(edges[adj[u][i]], u)
    }

    /** While A and the edge lists agree, every listed neighbour is marked adjacent in A, both ways round. */
    lemma NeighbourIsAdjacent(u: int, i: int)
      requires Valid() && MatrixMatches() && 0 <= u < n && 0 <= i < Degree(u)
      ensures a[u, GetIthNeighbour(u, i)]
    {
      assert Linked(Shape(), u, GetIthNeighbour(u, i));
    }

    /** insertEdge(u, v): append edge (u, v), record its index at both ends, mark A both ways. */
    method InsertEdge(u: int, v: int)
      requires Valid() && MatrixMatches() && 0 <= u < n && 0 <= v < n
      modifies this, a
      ensures Valid() && MatrixMatches()
      ensures Shape() == WithEdge(old(Shape()), u, v)
      ensures forall w :: 0 <= w < n ==>
                Degree(w) == old(Degree(w)) + (if w == u then 1 else 0) + (if w == v then 1 else 0)
      ensures a[u, v] && a[v, u]
      ensures forall p, q :: 0 <= p < n && 0 <= q < n && !(p == u && q == v) && !(p == v && q == u) ==>
                a[p, q] == old(a[p, q])
    {
      ghost var g := Shape();
      var i := |edges|;
      edges := edges + [Edge(u, v)];
      adj := adj[u := adj[u] + [i]];
      adj := adj[v := adj[v] + [i]];
      a[u, v] := true;
      a[v, u] := true;
      assert Shape() == WithEdge(g, u, v);
      InsertKeepsLinks(g, u, v);
      forall p, q | 0 <= p < n && 0 <= q < n ensures a[p, q] <==> Linked(Shape(), p, q) {
      }
    }

    /**
     * Lex_BFS: numbers the vertices n-1, n-2, ..., 0 in visiting order; the
     * next vertex is the front of the first class, and each visit refines the
     * remaining classes by the visited vertex's neighbours.
     */
    method LexBFS() returns (pi: array<int>)
      requires Valid() && n > 0
      ensures pi.Length == n + 1 && IsNumbering(pi[..], n)
      ensures |LexOrder(old(Neighbourhoods()), [Range(n)])| == n
      ensures NumberedInOrder(pi[..], LexOrder(old(Neighbourhoods()), [Range(n)]), n)
      ensures pi[0] == n - 1
    {
      ghost var nbrs := Neighbourhoods();
      pi := new int[n + 1];
      var S := VertexList(n);
      assert Flatten([S]) == Range(n);
      pi[n] := n;
      VisitAll([S], pi, nbrs);
      ghost var visits := LexOrder(nbrs, [S]);
      PermutationOfRange(visits, n);
      NumberingOfVisitOrder(pi[..], visits, n);
      LexOrderStarts(nbrs, n);
    }

    /**
     * The main loop of Lex_BFS: visit the front vertex of the partition L
     * until no class is left, numbering the k-th vertex of the Lex-BFS order
     * of L with n-1-k.
     */
    method VisitAll(L0: seq<seq<int>>, pi: array<int>, ghost nbrs: seq<set<int>>)
      requires Valid() && Partitioned(L0, [], n) && nbrs == Neighbourhoods()
      requires pi.Length == n + 1 && pi[n] == n
      modifies pi
      ensures pi[n] == n && NumberedInOrder(pi[..], LexOrder(nbrs, L0), n)
      ensures multiset(LexOrder(nbrs, L0)) == multiset(Range(n))
    {
      var L := L0;
      var i := n - 1;
      ghost var order: seq<int> := [];
      while L != []
        invariant pi[n] == n
        invariant order + LexOrder(nbrs, L) == LexOrder(nbrs, L0)
        invariant i == n - 1 - |order|
        invariant Partitioned(L, order, n)
        invariant NumberedInOrder(pi[..], order, n)
        decreases |Flatten(L)|
      {
        var x;
        L, x := Visit(L, pi, i, order, nbrs);
        i := i - 1;
        order := order + [x];
      }
      assert Flatten(L) == [] && LexOrder(nbrs, L) == [] && order + [] == order;
    }

    /**
     * One turn of the main loop of Lex_BFS: take the front vertex x of the
     * first class, number it i, and refine the remaining classes by its
     * neighbours.
     */
    method Visit(L: seq<seq<int>>, pi: array<int>, i: int, ghost order: seq<int>, ghost nbrs: seq<set<int>>)
      returns (L': seq<seq<int>>, x: int)
      requires Valid() && L != [] && Partitioned(L, order, n) && nbrs == Neighbourhoods()
      requires pi.Length == n + 1 && pi[n] == n && NumberedInOrder(pi[..], order, n) && i == n - 1 - |order|
      modifies pi
      ensures x == L[0][0] && 0 <= x < n && x !in order
      ensures L' == Refine(PopFront(L), old(NeighbourSet(x)))
      ensures order + LexOrder(nbrs, L) == (order + [x]) + LexOrder(nbrs, L')
      ensures Partitioned(L', order + [x], n) && |Flatten(L')| == |Flatten(L)| - 1
      ensures pi[..] == old(pi[..])[x := i] && pi[n] == n && NumberedInOrder(pi[..], order + [x], n)
    {
      x := L[0][0];
      TakeFront(L, order, n);
      VisitKeeps(L, order, n, NeighbourSet(x));
      FrontShrinks(L, NeighbourSet(x));
      LexOrderStep(nbrs, L, order);
      L' := RefineBy(x, PopFront(L));
      NumberVertex(pi, x, i, order, n);
    }

    /** The neighbour set of every vertex according to A, indexed by vertex. */
    ghost function Neighbourhoods(): (r: seq<set<int>>)
      reads this, a
      requires Valid()
      ensures |r| == n && forall x :: 0 <= x < n ==> r[x] == NeighbourSet(x)
    {
      seq(n, x requires 0 <= x < n reads this, a => if Valid() then NeighbourSet(x) else {})
    }

    /** Neighbours of x according to A. */
    ghost function NeighbourSet(x: int): set<int>
      reads this, a
      requires Valid() && 0 <= x < n
    {
      set v | 0 <= v < n && a[x, v]
    }

    /** The scan of one class Xb: the members adjacent to x leave it for Y, in order. */
    method SplitClass(x: int, S: seq<int>) returns (Y: seq<int>, rest: seq<int>)
      requires Valid() && 0 <= x < n
      requires forall t :: 0 <= t < |S| ==> 0 <= S[t] < n
      ensures Y == Keep(S, NeighbourSet(x)) && rest == Drop(S, NeighbourSet(x))
    {
      ghost var N := NeighbourSet(x);
      Y, rest := [], [];
      var t := 0;
      while t < |S|
        invariant 0 <= t <= |S|
        invariant Y == Keep(S[..t], N) && rest == Drop(S[..t], N)
      {
        KeepDropSnoc(S, N, t);
        if a[x, S[t]] {
          Y := Y + [S[t]];
        } else {
          rest := rest + [S[t]];
        }
        t := t + 1;
      }
      assert S[..|S|] == S;
    }

    /** The refinement loop of Lex_BFS over the classes of L, in place. */
    method RefineBy(x: int, L: seq<seq<int>>) returns (R: seq<seq<int>>)
      requires Valid() && 0 <= x < n
      requires forall v :: v in Flatten(L) ==> 0 <= v < n
      ensures R == Refine(L, NeighbourSet(x))
    {
      ghost var N := NeighbourSet(x);
      R := L;
      var k := 0;
      ghost var j := 0;
      while k < |R|
        invariant 0 <= j <= |L|
        invariant R == Refine(L[..j], N) + L[j..]
        invariant k == |Refine(L[..j], N)|
        decreases |L| - j
      {
        RefineStepAt(L, j, N, R, k);
        forall t | 0 <= t < |L[j]| ensures 0 <= L[j][t] < n {
          FlattenMember(L, j, t);
        }
        R, k := RefineClassAt(x, R, k);
        j := j + 1;
      }
      assert L[..j] == L;
    }

    /** One turn of the refinement loop: class Xb at position k is split by x's neighbours. */
    method RefineClassAt(x: int, R: seq<seq<int>>, k: nat) returns (R': seq<seq<int>>, k': nat)
      requires Valid() && 0 <= x < n && k < |R|
      requires forall t :: 0 <= t < |R[k]| ==> 0 <= R[k][t] < n
      ensures R' == R[..k] + RefineClass(R[k], NeighbourSet(x)) + R[k + 1..]
      ensures k' == k + |RefineClass(R[k], NeighbourSet(x))|
    {
      var Y, rest := SplitClass(x, R[k]);
      R', k' := ReplaceClass(R, k, Y, rest);
    }

    /**
     * The first phase of isChordal: RN(x) and parent(x) for every x, with
     * RN(n) of the root left empty.
     */
    method RightNeighbourLists(pi: seq<int>) returns (rn: seq<seq<int>>, parent: array<int>)
      requires Valid() && |pi| == n + 1
      ensures TablesMatch(Shape(), pi, rn, parent[..])
    {
      ghost var g := Shape();
      parent := new int[n];
      rn := seq(n + 1, _ => []);
      var x := 0;
      while x < n
        invariant 0 <= x <= n && |rn| == n + 1 && parent.Length == n
        invariant forall y :: 0 <= y < x ==> rn[y] == RN(g, pi, y)
        invariant forall y :: 0 <= y < x ==> parent[y] == Parent(g, pi, y)
        invariant forall y :: x <= y <= n ==> rn[y] == []
      {
        var rx, px := ScanNeighbours(x, pi);
        rn := rn[x := rx];
        parent[x] := px;
        x := x + 1;
      }
      assert rn[n] == RN(g, pi, n);
    }

    /**
     * The scan of x's incidence list: the neighbours numbered after x, in
     * list order, and among them the one numbered first (n when there is none).
     */
    method ScanNeighbours(x: int, pi: seq<int>) returns (rx: seq<int>, px: int)
      requires Valid() && |pi| == n + 1 && 0 <= x < n
      ensures rx == RN(Shape(), pi, x) && px == Parent(Shape(), pi, x)
    {
      ghost var ns := NeighboursUpTo(Shape(), x, Degree(x));
      rx, px := [], n;
      var i := 0;
      while i < Degree(x)
        invariant 0 <= i <= Degree(x)
        invariant rx == RightOf(ns[..i], pi, pi[x])
        invariant px == Leftmost(rx, pi, n)
      {
        var v := GetIthNeighbour(x, i);
        NeighboursPrefix(Shape(), x, Degree(x), i);
        RightOfSnoc(ns, i, pi, pi[x]);
        if pi[v] > pi[x] {
          LeftmostSnoc(rx, v, pi, n);
          rx := rx + [v];
          if pi[v] < pi[px] {
            px := v;
          }
        }
        i := i + 1;
      }
      assert ns[..Degree(x)] == ns;
    }

    /**
     * isChordal: numbers the vertices by Lex-BFS, builds RN and parent, and
     * reports whether every RN(x) minus parent(x) lies inside RN(parent(x)).
     * The numbering used is returned as a ghost value.
     */
    method IsChordal() returns (chordal: bool, ghost pi: seq<int>)
      requires Valid() && n > 0
      ensures IsNumbering(pi, n)
      ensures NumberedInOrder(pi, LexOrder(old(Neighbourhoods()), [Range(n)]), n)
      ensures chordal <==> PerfectElimination(Shape(), pi)
    {
      var numbering := LexBFS();
      var num := numbering[..];
      pi := num;
      chordal := EliminationTest(num);
    }

    /** The two phases of isChordal after Lex_BFS: build RN and parent, then check every vertex. */
    method EliminationTest(pi: seq<int>) returns (chordal: bool)
      requires Valid() && |pi| == n + 1
      ensures chordal <==> PerfectElimination(Shape(), pi)
    {
      var rn, parent := RightNeighbourLists(pi);
      ghost var g := Shape();
      var par := parent[..];
      TablesTest(g, pi, rn, par);
      chordal := AllCovered(rn, par);
    }
  }

  /** rn and parent hold RN(y) and parent(y) for every vertex y, and rn[n] is the root's empty list. */
  ghost predicate TablesMatch(g: Incidence, pi: seq<int>, rn: seq<seq<int>>, parent: seq<int>)
    requires WellIndexed(g) && |pi| == g.n + 1
  {
    && |rn| == g.n + 1 && |parent| == g.n
    && (forall y :: 0 <= y <= g.n ==> rn[y] == RN(g, pi, y))
    && (forall y :: 0 <= y < g.n ==> parent[y] == Parent(g, pi, y))
  }

  /** The containment check of isChordal for y, read off the tables rn and parent. */
  predicate TableCovers(rn: seq<seq<int>>, parent: seq<int>, y: int)
  {
    && 0 <= y < |parent| && y < |rn| && 0 <= parent[y] < |rn|
    && forall k :: 0 <= k < |rn[y]| ==> rn[y][k] == parent[y] || rn[y][k] in rn[parent[y]]
  }

  /** Read off matching tables, the test of Algorithm 3 is the containment check isChordal performs, vertex by vertex. */
  lemma TablesTest(g: Incidence, pi: seq<int>, rn: seq<seq<int>>, parent: seq<int>)
    requires WellIndexed(g) && |pi| == g.n + 1 && TablesMatch(g, pi, rn, parent)
    ensures |rn| == g.n + 1 && |parent| == g.n
    ensures forall y :: 0 <= y < g.n ==> 0 <= parent[y] <= g.n
    ensures PerfectElimination(g, pi) <==> forall y :: 0 <= y < g.n ==> TableCovers(rn, parent, y)
  {
    forall y | 0 <= y < g.n
      ensures ParentCovers(g, pi, y) <==> TableCovers(rn, parent, y)
    {
      assert rn[y] == RN(g, pi, y) && parent[y] == Parent(g, pi, y);
      assert rn[parent[y]] == RN(g, pi, Parent(g, pi, y));
    }
  }

  /** The second phase of isChordal: the containment check for every vertex, stopping at the first that fails it. */
  method AllCovered(rn: seq<seq<int>>, parent: seq<int>) returns (ok: bool)
    requires |rn| == |parent| + 1 && forall y :: 0 <= y < |parent| ==> 0 <= parent[y] < |rn|
    ensures ok <==> forall y :: 0 <= y < |parent| ==> TableCovers(rn, parent, y)
  {
    var x := 0;
    while x < |parent|
      invariant 0 <= x <= |parent|
      invariant forall y :: 0 <= y < x ==> TableCovers(rn, parent, y)
    {
      ok := Covered(rn, parent, x);
      if !ok {
        return;
      }
      x := x + 1;
    }
    return true;
  }

  /**
   * The inner loops of isChordal for vertex x: every member of RN(x) other
   * than parent(x) is found, by linear search, in RN(parent(x)).
   */
  method Covered(rn: seq<seq<int>>, parent: seq<int>, x: int) returns (ok: bool)
    requires 0 <= x < |parent| && x < |rn| && 0 <= parent[x] < |rn|
    ensures ok <==> TableCovers(rn, parent, x)
  {
    var rx, px, rp := rn[x], parent[x], rn[parent[x]];
    var i := 0;
    while i < |rx|
      invariant 0 <= i <= |rx|
      invariant forall k :: 0 <= k < i ==> rx[k] == px || rx[k] in rp
    {
      if rx[i] != px {
        var contained := false;
        var j := 0;
        while j < |rp|
          invariant 0 <= j <= |rp|
          invariant !contained ==> rx[i] !in rp[..j]
          invariant contained ==> rx[i] in rp
        {
          if rx[i] == rp[j] {
            contained := true;
            break;
          }
          j := j + 1;
        }
        if !contained {
          assert rp[..j] == rp;
          return false;
        }
      }
      i := i + 1;
    }
    return true;
  }

  /** pi[x] := i for the vertex x visited after those in order, which keeps the numbering in step with the visits. */
  method NumberVertex(pi: array<int>, x: int, i: int, ghost order: seq<int>, ghost n: nat)
    requires pi.Length == n + 1 && pi[n] == n && NumberedInOrder(pi[..], order, n)
    requires 0 <= x < n && x !in order && i == n - 1 - |order|
    modifies pi
    ensures pi[..] == old(pi[..])[x := i] && pi[n] == n && NumberedInOrder(pi[..], order + [x], n)
  {
    NumberNext(pi[..], order, n, x);
    pi[x] := i;
    assert pi[..] == old(pi[..])[x := i];
  }

  /** The k-th vertex of the visit order is in range and numbered n-1-k. */
  ghost predicate NumberedInOrder(pi: seq<int>, order: seq<int>, n: nat)
  {
    forall k :: 0 <= k < |order| ==> 0 <= order[k] < n && order[k] < |pi| && pi[order[k]] == n - 1 - k
  }

  /** Numbering a new vertex n-1-|order| and appending it to the visit order keeps the two in step. */
  lemma NumberNext(pi: seq<int>, order: seq<int>, n: nat, x: int)
    requires NumberedInOrder(pi, order, n) && 0 <= x < n && x < |pi| && x !in order
    ensures NumberedInOrder(pi[x := n - 1 - |order|], order + [x], n)
  {
  }

  /**
   * Numbering the k-th visited vertex n-1-k, when every vertex is visited
   * exactly once, yields a numbering.
   */
  lemma NumberingOfVisitOrder(pi: seq<int>, order: seq<int>, n: nat)
    requires |pi| == n + 1 && pi[n] == n
    requires multiset(order) == multiset(Range(n))
    requires NumberedInOrder(pi, order, n)
    ensures IsNumbering(pi, n)
  {
    PermutationOfRange(order, n);
    forall v | 0 <= v < n ensures 0 <= pi[v] < n {
      assert v in order;
      var k :| 0 <= k < |order| && order[k] == v;
    }
    forall v, w | 0 <= v < w < n ensures pi[v] != pi[w] {
      assert v in order && w in order;
      var k1 :| 0 <= k1 < |order| && order[k1] == v;
      var k2 :| 0 <= k2 < |order| && order[k2] == w;
    }
  }

  /** Every vertex still in the partition is in range. */
  lemma InRangeOfPartition(L: seq<seq<int>>, order: seq<int>, n: nat)
    requires multiset(Flatten(L)) + multiset(order) == multiset(Range(n))
    ensures forall v :: v in Flatten(L) ==> 0 <= v < n
  {
    forall v | v in Flatten(L) ensures 0 <= v < n {
      assert v in multiset(Flatten(L));
      RangeCount(n, v);
    }
  }

  /** The partition once its front vertex is taken: the first class loses its front, and is erased when left empty. */
  function PopFront(L: seq<seq<int>>): (r: seq<seq<int>>)
    requires L != [] && L[0] != []
    ensures Flatten(r) == L[0][1..] + Flatten(L[1..])
  {
    if L[0][1..] == [] then L[1..]
    else
      assert ([L[0][1..]] + L[1..])[1..] == L[1..];
      [L[0][1..]] + L[1..]
  }

  /**
   * The order in which Lex-BFS visits the vertices of the partition L, when
   * nbrs[v] is the neighbour set of v: the front of the first class, then the
   * order of the rest once refined by that vertex's neighbours.
   */
  ghost function LexOrder(nbrs: seq<set<int>>, L: seq<seq<int>>): seq<int>
    decreases |Flatten(L)|
  {
    if L == [] || L[0] == [] then []
    else
      var x := L[0][0];
      var N := if 0 <= x < |nbrs| then nbrs[x] else {};
      FrontShrinks(L, N);
      [x] + LexOrder(nbrs, Refine(PopFront(L), N))
  }

  /** Taking the front vertex and refining the rest leaves exactly one vertex fewer. */
  lemma FrontShrinks(L: seq<seq<int>>, N: set<int>)
    requires L != [] && L[0] != []
    ensures |Flatten(Refine(PopFront(L), N))| == |Flatten(L)| - 1
  {
    FlattenPop(L);
    RefinePreserves(PopFront(L), N);
    assert |Flatten(Refine(PopFront(L), N))| == |multiset(Flatten(Refine(PopFront(L), N)))|;
  }

  /** One visit moves the front vertex from the pending order to the end of the visited one. */
  lemma LexOrderStep(nbrs: seq<set<int>>, L: seq<seq<int>>, order: seq<int>)
    requires L != [] && L[0] != [] && 0 <= L[0][0] < |nbrs|
    ensures order + LexOrder(nbrs, L) ==
            (order + [L[0][0]]) + LexOrder(nbrs, Refine(PopFront(L), nbrs[L[0][0]]))
  {
  }

  /** Lex-BFS starts from vertex 0, the front of the single initial class. */
  lemma LexOrderStarts(nbrs: seq<set<int>>, n: nat)
    requires n > 0
    ensures LexOrder(nbrs, [Range(n)]) != [] && LexOrder(nbrs, [Range(n)])[0] == 0
  {
    RangeIndex(n, 0);
  }

  /** Lex-BFS visits every vertex of a partition without empty classes exactly once. */
  lemma {:induction false} LexOrderPermutes(nbrs: seq<set<int>>, L: seq<seq<int>>)
    requires forall c :: 0 <= c < |L| ==> L[c] != []
    ensures multiset(LexOrder(nbrs, L)) == multiset(Flatten(L))
    decreases |Flatten(L)|
  {
    if L != [] {
      var x := L[0][0];
      var N := if 0 <= x < |nbrs| then nbrs[x] else {};
      var R := Refine(PopFront(L), N);
      FrontShrinks(L, N);
      RefinePreserves(PopFront(L), N);
      LexOrderPermutes(nbrs, R);
      FlattenPop(L);
      assert LexOrder(nbrs, L) == [x] + LexOrder(nbrs, R);
    }
  }

  /** The initial class of Lex_BFS: the vertices 0..n-1 in order. */
  method VertexList(n: nat) returns (S: seq<int>)
    ensures S == Range(n)
  {
    S := [];
    var u := 0;
    while u < n
      invariant 0 <= u <= n && S == Range(u)
    {
      S := S + [u];
      u := u + 1;
    }
  }

  /** The partition and the visit order together list 0..n-1 once each, and no class is empty. */
  ghost predicate Partitioned(L: seq<seq<int>>, order: seq<int>, n: nat)
  {
    && multiset(Flatten(L)) + multiset(order) == multiset(Range(n))
    && forall c :: 0 <= c < |L| ==> L[c] != []
  }

  /**
   * One visit of Lex_BFS: the front vertex x is new and in range, and taking
   * it and refining by any set keeps the partition and the visit order in
   * step, with one vertex fewer left to visit.
   */
  lemma VisitKeeps(L: seq<seq<int>>, order: seq<int>, n: nat, N: set<int>)
    requires L != [] && Partitioned(L, order, n)
    ensures 0 <= L[0][0] < n && L[0][0] !in order
    ensures forall v :: v in Flatten(PopFront(L)) ==> 0 <= v < n
    ensures Partitioned(Refine(PopFront(L), N), order + [L[0][0]], n)
    ensures |Flatten(Refine(PopFront(L), N))| < |Flatten(L)|
  {
    TakeFront(L, order, n);
    InRangeOfPartition(PopFront(L), order + [L[0][0]], n);
    RefineStep(PopFront(L), order + [L[0][0]], n, N);
  }

  /**
   * Taking the front vertex x of the partition moves it to the visit order:
   * x is new and in range, and the partition loses one vertex.
   */
  lemma TakeFront(L: seq<seq<int>>, order: seq<int>, n: nat)
    requires L != [] && L[0] != []
    requires multiset(Flatten(L)) + multiset(order) == multiset(Range(n))
    ensures 0 <= L[0][0] < n && L[0][0] !in order
    ensures multiset(Flatten(PopFront(L))) + multiset(order + [L[0][0]]) == multiset(Range(n))
    ensures |Flatten(PopFront(L))| < |Flatten(L)|
  {
    var x := L[0][0];
    FlattenPop(L);
    assert 0 <= x < n && multiset(order)[x] == 0 by {
      FlattenMember(L, 0, 0);
      assert x in multiset(Flatten(L));
      RangeCount(n, x);
    }
    PopKeeps(L, order, multiset(Range(n)));
  }

  /** Moving the front vertex from the partition to the end of the visit order keeps their joint contents. */
  lemma PopKeeps(L: seq<seq<int>>, order: seq<int>, M: multiset<int>)
    requires L != [] && L[0] != []
    requires multiset(Flatten(L)) + multiset(order) == M
    ensures multiset(Flatten(PopFront(L))) + multiset(order + [L[0][0]]) == M
  {
    var x, P := L[0][0], PopFront(L);
    FlattenPop(L);
    MoveOne(Flatten(P), order, x, M);
  }

  lemma FlattenPop(L: seq<seq<int>>)
    requires L != [] && L[0] != []
    ensures Flatten(L) == [L[0][0]] + Flatten(PopFront(L))
  {
    var x, rest, tail := L[0][0], L[0][1..], Flatten(L[1..]);
    assert Flatten(L) == L[0] + tail;
    assert L[0] == [x] + rest;
    assert Flatten(PopFront(L)) == rest + tail;
    assert ([x] + rest) + tail == [x] + (rest + tail);
  }

  lemma MoveOne(s: seq<int>, order: seq<int>, x: int, M: multiset<int>)
    requires multiset([x] + s) + multiset(order) == M
    ensures multiset(s) + multiset(order + [x]) == M
  {
    assert multiset([x] + s) == multiset{x} + multiset(s);
    assert multiset(order + [x]) == multiset(order) + multiset{x};
  }

  /** Refining the partition by any set keeps it, with the visit order, a permutation of 0..n-1, with no empty class and as many vertices. */
  lemma RefineStep(P: seq<seq<int>>, order: seq<int>, n: nat, N: set<int>)
    requires multiset(Flatten(P)) + multiset(order) == multiset(Range(n))
    ensures var L2 := Refine(P, N);
            && multiset(Flatten(L2)) + multiset(order) == multiset(Range(n))
            && (forall c :: 0 <= c < |L2| ==> L2[c] != [])
            && |Flatten(L2)| == |Flatten(P)|
  {
    RefinePreserves(P, N);
    assert |Flatten(Refine(P, N))| == |multiset(Flatten(Refine(P, N)))| == |multiset(Flatten(P))| == |Flatten(P)|;
  }

  /**
   * The list surgery of one refinement step at position k: Y, when non-empty,
   * is inserted before class Xb, Xb is left holding rest, and is erased when
   * rest is empty. Returns the list and the position after Xb.
   */
  method ReplaceClass(R: seq<seq<int>>, k: nat, Y: seq<int>, rest: seq<int>) returns (R': seq<seq<int>>, k': nat)
    requires k < |R|
    ensures R' == R[..k] + ((if Y == [] then [] else [Y]) + (if rest == [] then [] else [rest])) + R[k + 1..]
    ensures k' == k + (if Y == [] then 0 else 1) + (if rest == [] then 0 else 1)
  {
    R', k' := R, k;
    if |Y| > 0 {
      R' := R'[..k'] + [Y] + R'[k'..];
      k' := k' + 1;
    }
    R' := R'[k' := rest];
    if |rest| == 0 {
      R' := R'[..k'] + R'[k' + 1..];
    } else {
      k' := k' + 1;
    }
  }

  lemma RightOfSnoc(ns: seq<int>, i: nat, pi: seq<int>, px: int)
    requires i < |ns| && forall k :: 0 <= k < |ns| ==> 0 <= ns[k] < |pi|
    ensures RightOf(ns[..i + 1], pi, px) == RightOf(ns[..i], pi, px) + (if pi[ns[i]] > px then [ns[i]] else [])
  {
    assert ns[..i + 1][..i] == ns[..i];
  }

  lemma LeftmostSnoc(rn: seq<int>, v: int, pi: seq<int>, root: nat)
    requires root < |pi| && 0 <= v < |pi| && forall k :: 0 <= k < |rn| ==> 0 <= rn[k] < |pi|
    ensures Leftmost(rn + [v], pi, root) == if pi[v] < pi[Leftmost(rn, pi, root)] then v else Leftmost(rn, pi, root)
  {
    assert (rn + [v])[..|rn|] == rn;
  }

  /**
   * With the first j classes refined (k classes so far) and the rest of L
   * untouched, class j sits at k, and splicing its refinement in gives the
   * state with j + 1 classes refined.
   */
  lemma RefineStepAt(L: seq<seq<int>>, j: nat, N: set<int>, R: seq<seq<int>>, k: nat)
    requires j < |L| && R == Refine(L[..j], N) + L[j..] && k == |Refine(L[..j], N)|
    ensures k < |R| && R[k] == L[j]
    ensures R[..k] + RefineClass(L[j], N) + R[k + 1..] == Refine(L[..j + 1], N) + L[j + 1..]
    ensures |Refine(L[..j + 1], N)| == k + |RefineClass(L[j], N)|
  {
    var P, T := Refine(L[..j], N), L[j + 1..];
    assert L[j..] == [L[j]] + T;
    assert R[..k] == P && R[k + 1..] == T;
    RefineSnoc(L, j, N);
  }

  lemma RefineSnoc(L: seq<seq<int>>, j: nat, N: set<int>)
    requires j < |L|
    ensures Refine(L[..j + 1], N) == Refine(L[..j], N) + RefineClass(L[j], N)
  {
    assert L[..j + 1] == L[..j] + [L[j]];
    RefineAppend(L[..j], [L[j]], N);
    assert [L[j]][1..] == [];
  }
}
