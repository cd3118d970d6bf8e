/**
 * The conflict graph of polinomiale15.cpp (class ConflictGraph): one vertex
 * per character (column) of the current matrix, an edge between two
 * characters of the same component that show a black sigma (the patterns
 * 00, 01, 10, 11) or a red sigma (02, 20, 22) on the species of that
 * component that are not yet realized.  The edges are numbered in the order
 * the constructor finds them, kept in adjacency lists (newest neighbour
 * first) and listed once more, each pair once, in archi_gabry.  A visit of
 * the lists computes the connected component of a character.
 */
module PolyConflict {
  import opened Seqs
  import opened PolyMatrix
  import opened PolyComponents
  import PolyGrb

  const NotVisited := 0
  const Visited := 1

  //---------------------------------------------------------------------------
  // The conflict relation

  /** The matrix the graph is built from, with the component labels of its rows and columns. */
  datatype Source = Source(m: seq<seq<int>>, cols: nat, compRows: seq<int>, compCols: seq<int>)

  predicate Shaped(p: Source)
  {
    Rect(p.m, p.cols) && |p.compRows| == |p.m| && |p.compCols| == p.cols
  }

  /** Row k takes part in the comparison of character i: it is not yet realized and lies in i's component. */
  ghost predicate Compared(p: Source, i: nat, k: nat)
    requires Shaped(p) && i < p.cols && k < |p.m|
  {
    !Isolated(p.m, p.cols, k) && p.compRows[k] == p.compCols[i]
  }

  /** Among the first n rows, a compared row shows x in column i and y in column j. */
  ghost predicate Witness(p: Source, i: nat, j: nat, x: int, y: int, n: nat)
    requires Shaped(p) && i < p.cols && j < p.cols && n <= |p.m|
  {
    exists k :: 0 <= k < n && Compared(p, i, k) && p.m[k][i] == x && p.m[k][j] == y
  }

  /** The black sigma: the four patterns 00, 01, 10 and 11 all occur. */
  ghost predicate BlackSigma(p: Source, i: nat, j: nat, n: nat)
    requires Shaped(p) && i < p.cols && j < p.cols && n <= |p.m|
  {
    Witness(p, i, j, 0, 0, n) && Witness(p, i, j, 0, 1, n)
    && Witness(p, i, j, 1, 0, n) && Witness(p, i, j, 1, 1, n)
  }

  /** The red sigma: the three patterns 02, 20 and 22 all occur. */
  ghost predicate RedSigmaOf(p: Source, i: nat, j: nat, n: nat)
    requires Shaped(p) && i < p.cols && j < p.cols && n <= |p.m|
  {
    Witness(p, i, j, 0, 2, n) && Witness(p, i, j, 2, 0, n) && Witness(p, i, j, 2, 2, n)
  }

  /** Characters i and j lie in one component and show a black or a red sigma there. */
  ghost predicate InConflict(p: Source, i: nat, j: nat)
    requires Shaped(p) && i < p.cols && j < p.cols
  {
    p.compCols[i] == p.compCols[j]
    && (BlackSigma(p, i, j, |p.m|) || RedSigmaOf(p, i, j, |p.m|))
  }

  /** An edge of the conflict graph: two characters with a nonzero entry each, in conflict. */
  ghost predicate Conflict(p: Source, i: nat, j: nat)
    requires Shaped(p) && i < p.cols && j < p.cols
  {
    !Isolated(p.m, p.cols, |p.m| + i) && !Isolated(p.m, p.cols, |p.m| + j) && InConflict(p, i, j)
  }

  lemma WitnessSwap(p: Source, i: nat, j: nat, x: int, y: int, n: nat)
    requires Shaped(p) && i < p.cols && j < p.cols && n <= |p.m|
    requires p.compCols[i] == p.compCols[j]
    ensures Witness(p, i, j, x, y, n) <==> Witness(p, j, i, y, x, n)
  {
    if Witness(p, i, j, x, y, n) {
      var k :| 0 <= k < n && Compared(p, i, k) && p.m[k][i] == x && p.m[k][j] == y;
      assert Compared(p, j, k);
    }
    if Witness(p, j, i, y, x, n) {
      var k :| 0 <= k < n && Compared(p, j, k) && p.m[k][j] == y && p.m[k][i] == x;
      assert Compared(p, i, k);
    }
  }

  /** The conflict relation is symmetric: both sigma pattern sets are closed under swapping. */
  lemma ConflictSymmetric(p: Source, i: nat, j: nat)
    requires Shaped(p) && i < p.cols && j < p.cols
    ensures Conflict(p, i, j) <==> Conflict(p, j, i)
  {
    if p.compCols[i] == p.compCols[j] {
      var n := |p.m|;
      WitnessSwap(p, i, j, 0, 0, n);
      WitnessSwap(p, i, j, 0, 1, n);
      WitnessSwap(p, i, j, 1, 0, n);
      WitnessSwap(p, i, j, 1, 1, n);
      WitnessSwap(p, i, j, 0, 2, n);
      WitnessSwap(p, i, j, 2, 0, n);
      WitnessSwap(p, i, j, 2, 2, n);
    }
  }

  /** No character is in conflict with itself: a single column cannot show both 0 and 1 in one entry. */
  lemma NoSelfConflict(p: Source, i: nat)
    requires Shaped(p) && i < p.cols
    ensures !Conflict(p, i, i)
  {
  }

  /** Characters of different components are never in conflict. */
  lemma ConflictSameComponent(p: Source, i: nat, j: nat)
    requires Shaped(p) && i < p.cols && j < p.cols
    requires Conflict(p, i, j)
    ensures p.compCols[i] == p.compCols[j]
    ensures exists k :: 0 <= k < |p.m| && Compared(p, i, k)
  {
    if BlackSigma(p, i, j, |p.m|) {
      assert Witness(p, i, j, 0, 0, |p.m|);
    } else {
      assert Witness(p, i, j, 0, 2, |p.m|);
    }
  }

  lemma WitnessSnoc(p: Source, i: nat, j: nat, n: nat, x: int, y: int)
    requires Shaped(p) && i < p.cols && j < p.cols && n < |p.m|
    ensures Witness(p, i, j, x, y, n + 1)
            <==> Witness(p, i, j, x, y, n) || (Compared(p, i, n) && p.m[n][i] == x && p.m[n][j] == y)
  {
    if Witness(p, i, j, x, y, n + 1) && !Witness(p, i, j, x, y, n) {
      var k :| 0 <= k < n + 1 && Compared(p, i, k) && p.m[k][i] == x && p.m[k][j] == y;
      assert k == n;
    }
  }

  /** Row n is compared and shows the pattern (x, y) in columns i and j. */
  ghost predicate Hit(p: Source, i: nat, j: nat, n: nat, x: int, y: int)
    requires Shaped(p) && i < p.cols && j < p.cols && n < |p.m|
  {
    Compared(p, i, n) && p.m[n][i] == x && p.m[n][j] == y
  }

  /** A flag of red_conflict is set exactly when its pattern has a witness among the first n rows. */
  ghost predicate Flag(p: Source, i: nat, j: nat, x: int, y: int, n: nat, f: bool)
    requires Shaped(p) && i < p.cols && j < p.cols && n <= |p.m|
  {
    f <==> Witness(p, i, j, x, y, n)
  }

  /** Row n sets the flag exactly when it is a compared row showing the pattern. */
  lemma FlagStep(p: Source, i: nat, j: nat, n: nat, x: int, y: int, f: bool)
    requires Shaped(p) && i < p.cols && j < p.cols && n < |p.m|
    requires Flag(p, i, j, x, y, n, f)
    ensures Flag(p, i, j, x, y, n + 1, f || Hit(p, i, j, n, x, y))
  {
    WitnessSnoc(p, i, j, n, x, y);
  }

  //---------------------------------------------------------------------------
  // The tests of the constructor

  /** specie_non_realizzata: row k has a nonzero entry. */
  method SpecieNonRealizzata(m: seq<seq<int>>, colonne: nat, k: nat) returns (b: bool)
    requires Rect(m, colonne) && k < |m|
    ensures b <==> !Isolated(m, colonne, k)
  {
    var i := 0;
    while i < colonne
      invariant i <= colonne
      invariant forall c :: 0 <= c < i ==> m[k][c] == 0
    {
      if m[k][i] != 0 {
        return true;
      }
      i := i + 1;
    }
    return false;
  }

  /** carattere_connesso: column k has a nonzero entry in one of the rows. */
  method CarattereConnesso(m: seq<seq<int>>, righe: nat, k: nat) returns (b: bool)
    requires righe <= |m| && forall r :: 0 <= r < righe ==> k < |m[r]|
    ensures b <==> exists r :: 0 <= r < righe && m[r][k] != 0
  {
    var i := 0;
    while i < righe
      invariant i <= righe
      invariant forall r :: 0 <= r < i ==> m[r][k] == 0
    {
      if m[i][k] != 0 {
        return true;
      }
      i := i + 1;
    }
    return false;
  }

  /**
   * red_conflict: the seven pattern flags over the compared rows, raised
   * only when i and j share a component; a conflict is a black or a red
   * sigma.
   */
  method RedConflict(m: seq<seq<int>>, righe: nat, colonne: nat, i: nat, j: nat,
                     compRows: seq<int>, compCols: seq<int>) returns (b: bool)
    requires |m| == righe && Shaped(Source(m, colonne, compRows, compCols))
    requires i < colonne && j < colonne
    ensures b <==> InConflict(Source(m, colonne, compRows, compCols), i, j)
  {
    var p := Source(m, colonne, compRows, compCols);
    var f1, f2, f3, f4, f5, f6, f7 := false, false, false, false, false, false, false;
    if compCols[i] == compCols[j] {
      var k := 0;
      while k < righe
        invariant k <= righe
        invariant Flag(p, i, j, 0, 0, k, f1) && Flag(p, i, j, 0, 1, k, f2)
        invariant Flag(p, i, j, 1, 0, k, f3) && Flag(p, i, j, 1, 1, k, f4)
        invariant Flag(p, i, j, 0, 2, k, f5) && Flag(p, i, j, 2, 0, k, f6)
        invariant Flag(p, i, j, 2, 2, k, f7)
      {
        FlagStep(p, i, j, k, 0, 0, f1);
        FlagStep(p, i, j, k, 0, 1, f2);
        FlagStep(p, i, j, k, 1, 0, f3);
        FlagStep(p, i, j, k, 1, 1, f4);
        FlagStep(p, i, j, k, 0, 2, f5);
        FlagStep(p, i, j, k, 2, 0, f6);
        FlagStep(p, i, j, k, 2, 2, f7);
        f1, f2, f3, f4, f5, f6, f7 := CompareRow(p, k, i, j, f1, f2, f3, f4, f5, f6, f7);
        k := k + 1;
      }
    }
    b := (f1 && f2 && f3 && f4) || (f5 && f6 && f7);
  }

  /** One pass of red_conflict's loop: row k raises each flag whose pattern it shows. */
  method CompareRow(p: Source, k: nat, i: nat, j: nat,
                    f1: bool, f2: bool, f3: bool, f4: bool, f5: bool, f6: bool, f7: bool)
    returns (g1: bool, g2: bool, g3: bool, g4: bool, g5: bool, g6: bool, g7: bool)
    requires Shaped(p) && i < p.cols && j < p.cols && k < |p.m|
    ensures g1 == (f1 || Hit(p, i, j, k, 0, 0)) && g2 == (f2 || Hit(p, i, j, k, 0, 1))
    ensures g3 == (f3 || Hit(p, i, j, k, 1, 0)) && g4 == (f4 || Hit(p, i, j, k, 1, 1))
    ensures g5 == (f5 || Hit(p, i, j, k, 0, 2)) && g6 == (f6 || Hit(p, i, j, k, 2, 0))
    ensures g7 == (f7 || Hit(p, i, j, k, 2, 2))
  {
    var m := p.m;
    g1, g2, g3, g4, g5, g6, g7 := f1, f2, f3, f4, f5, f6, f7;
    var attiva := SpecieNonRealizzata(m, p.cols, k);
    if attiva {
      var same := p.compRows[k] == p.compCols[i];
      g1 := g1 || (m[k][i] == 0 && m[k][j] == 0 && same);
      g2 := g2 || (m[k][i] == 0 && m[k][j] == 1 && same);
      g5 := g5 || (m[k][i] == 0 && m[k][j] == 2 && same);
      g3 := g3 || (m[k][i] == 1 && m[k][j] == 0 && same);
      g6 := g6 || (m[k][i] == 2 && m[k][j] == 0 && same);
      g4 := g4 || (m[k][i] == 1 && m[k][j] == 1 && same);
      g7 := g7 || (m[k][i] == 2 && m[k][j] == 2 && same);
    }
  }

  //---------------------------------------------------------------------------
  // The numbering of the edges

  /** The constructor's scan visits pair (a, b), a < b, before reaching (i, j). */
  predicate Done(i: nat, j: nat, a: nat, b: nat)
  {
    a < b && (a < i || (a == i && b < j))
  }

  /** The conflicts (i, b) with i < b < j: those the scan of row i finds before column j. */
  ghost function RowCount(p: Source, i: nat, j: nat): nat
    requires Shaped(p) && i <= p.cols && j <= p.cols
  {
    if j <= i + 1 then 0 else RowCount(p, i, j - 1) + (if Conflict(p, i, j - 1) then 1 else 0)
  }

  /** The conflicts found in the rows before row i. */
  ghost function Before(p: Source, i: nat): nat
    requires Shaped(p) && i <= p.cols
  {
    if i == 0 then 0 else Before(p, i - 1) + RowCount(p, i - 1, p.cols)
  }

  /** The number the constructor gives the edge {a, b}, counting from 1; 0 for a non-edge. */
  ghost function ArcNumber(p: Source, a: nat, b: nat): nat
    requires Shaped(p) && a < p.cols && b < p.cols
  {
    if a < b && Conflict(p, a, b) then Before(p, a) + RowCount(p, a, b) + 1
    else if b < a && Conflict(p, b, a) then Before(p, b) + RowCount(p, b, a) + 1
    else 0
  }

  lemma {:induction false} RowCountMono(p: Source, i: nat, j: nat, k: nat)
    requires Shaped(p) && i <= p.cols && j <= k <= p.cols
    ensures RowCount(p, i, j) <= RowCount(p, i, k)
    decreases k
  {
    if j < k {
      RowCountMono(p, i, j, k - 1);
    }
  }

  lemma {:induction false} BeforeMono(p: Source, i: nat, k: nat)
    requires Shaped(p) && i <= k <= p.cols
    ensures Before(p, i) <= Before(p, k)
    decreases k
  {
    if i < k {
      BeforeMono(p, i, k - 1);
    }
  }

  /**
   * The numbering is the scan order: an edge found earlier gets a smaller
   * number, and every number lies in 1..Before(p, p.cols), the final edge
   * count.
   */
  lemma ArcNumbersOrdered(p: Source, a: nat, b: nat, c: nat, d: nat)
    requires Shaped(p) && a < b < p.cols && c < d < p.cols
    requires Conflict(p, a, b) && Conflict(p, c, d)
    requires a < c || (a == c && b < d)
    ensures 1 <= ArcNumber(p, a, b) < ArcNumber(p, c, d) <= Before(p, p.cols)
  {
    RowCountMono(p, c, d + 1, p.cols);
    BeforeMono(p, c + 1, p.cols);
    if a == c {
      RowCountMono(p, a, b + 1, d);
    } else {
      RowCountMono(p, a, b + 1, p.cols);
      BeforeMono(p, a + 1, c);
    }
  }

  lemma ArcNumberBound(p: Source, a: nat, b: nat)
    requires Shaped(p) && a < b < p.cols && Conflict(p, a, b)
    ensures 1 <= ArcNumber(p, a, b) <= Before(p, p.cols)
  {
    RowCountMono(p, a, b + 1, p.cols);
    BeforeMono(p, a + 1, p.cols);
  }

  /** A character with an all-zero column finds no conflict in its row of the scan. */
  lemma {:induction false} RowCountIsolated(p: Source, i: nat, j: nat)
    requires Shaped(p) && i < p.cols && j <= p.cols
    requires Isolated(p.m, p.cols, |p.m| + i)
    ensures RowCount(p, i, j) == 0
    decreases j
  {
    if j > i + 1 {
      RowCountIsolated(p, i, j - 1);
    }
  }

  //---------------------------------------------------------------------------
  // Adjacency lists and the list of arcs

  /** insert_edge on the lists: j goes to the head of i's list, then i to the head of j's. */
  function Link(adj: seq<seq<int>>, i: nat, j: nat): (r: seq<seq<int>>)
    requires i < |adj| && j < |adj|
    ensures |r| == |adj|
  {
    var a := adj[i := [j] + adj[i]];
    a[j := [i] + a[j]]
  }

  /** Linking i and j adds exactly the neighbours j of i and i of j. */
  lemma LinkNeighbours(adj: seq<seq<int>>, i: nat, j: nat, v: nat, w: int)
    requires i < |adj| && j < |adj| && v < |adj|
    ensures w in Link(adj, i, j)[v] <==> w in adj[v] || (v == i && w == j) || (v == j && w == i)
  {
  }

  /** The list holds its values in strictly decreasing order. */
  predicate Decreasing(s: seq<int>)
  {
    forall k, l :: 0 <= k < l < |s| ==> s[k] > s[l]
  }

  lemma DecreasingCons(x: int, s: seq<int>)
    requires Decreasing(s) && forall w :: w in s ==> w < x
    ensures Decreasing([x] + s)
  {
    var t := [x] + s;
    forall k, l | 0 <= k < l < |t| ensures t[k] > t[l] {
      assert t[l] == s[l - 1] && s[l - 1] in s;
      if k > 0 {
        assert t[k] == s[k - 1];
      }
    }
  }

  lemma DecreasingDistinct(s: seq<int>)
    requires Decreasing(s)
    ensures Distinct(s)
  {
  }

  /** The pairs (a, w) with a < w, for w running along the list l. */
  function Forward(a: int, l: seq<int>): (r: seq<(int, int)>)
    ensures |r| <= |l|
  {
    if l == [] then []
    else Forward(a, l[..|l| - 1]) + (if a < l[|l| - 1] then [(a, l[|l| - 1])] else [])
  }

  /** The arcs of the lists of the first n vertices, in the order archi_gabry lists them. */
  function Arcs(adj: seq<seq<int>>, n: nat): seq<(int, int)>
    requires n <= |adj|
  {
    if n == 0 then [] else Arcs(adj, n - 1) + Forward(n - 1, adj[n - 1])
  }

  lemma {:induction false} ForwardMember(a: int, l: seq<int>, x: int, y: int)
    ensures (x, y) in Forward(a, l) <==> x == a && a < y && y in l
    decreases |l|
  {
    if l != [] {
      var init := l[..|l| - 1];
      ForwardMember(a, init, x, y);
      assert l == init + [l[|l| - 1]];
    }
  }

  lemma {:induction false} ForwardCons(a: int, x: int, l: seq<int>)
    ensures |Forward(a, [x] + l)| == (if a < x then 1 else 0) + |Forward(a, l)|
    decreases |l|
  {
    if l != [] {
      var init := l[..|l| - 1];
      assert ([x] + l)[..|l|] == [x] + init;
      ForwardCons(a, x, init);
    }
  }

  lemma {:induction false} ForwardPrefix(a: int, l: seq<int>, t: nat)
    requires t < |l|
    ensures Forward(a, l[..t + 1])
            == Forward(a, l[..t]) + (if a < l[t] then [(a, l[t])] else [])
    ensures |Forward(a, l[..t + 1])| <= |Forward(a, l)|
    decreases |l| - t
  {
    assert l[..t + 1][..t] == l[..t];
    if t + 1 < |l| {
      ForwardPrefix(a, l, t + 1);
    } else {
      assert l[..t + 1] == l;
    }
  }

  lemma {:induction false} ArcsUpdate(adj: seq<seq<int>>, k: nat, l: seq<int>, n: nat)
    requires k < |adj| && n <= |adj|
    ensures |Arcs(adj[k := l], n)|
            == |Arcs(adj, n)| + (if k < n then |Forward(k, l)| - |Forward(k, adj[k])| else 0)
    decreases n
  {
    if n > 0 {
      ArcsUpdate(adj, k, l, n - 1);
    }
  }

  lemma {:induction false} ArcsMono(adj: seq<seq<int>>, i: nat, n: nat)
    requires i <= n <= |adj|
    ensures |Arcs(adj, i)| <= |Arcs(adj, n)|
    decreases n
  {
    if i < n {
      ArcsMono(adj, i, n - 1);
    }
  }

  /** Linking i < j puts one more arc, (i, j), in the list of arcs. */
  lemma LinkArcs(adj: seq<seq<int>>, i: nat, j: nat)
    requires i < j < |adj|
    ensures |Arcs(Link(adj, i, j), |adj|)| == |Arcs(adj, |adj|)| + 1
  {
    var a := adj[i := [j] + adj[i]];
    ArcsUpdate(adj, i, [j] + adj[i], |adj|);
    ForwardCons(i, j, adj[i]);
    ArcsUpdate(a, j, [i] + a[j], |adj|);
    ForwardCons(j, i, a[j]);
  }

  /** The arcs are the pairs (a, b) with a < b and b in the list of a. */
  lemma InConcat<T>(a: seq<T>, b: seq<T>, e: T)
    ensures e in a + b <==> e in a || e in b
  {
  }

  lemma {:induction false} ArcsMember(adj: seq<seq<int>>, n: nat, x: int, y: int)
    requires n <= |adj|
    ensures (x, y) in Arcs(adj, n) <==> 0 <= x < n && x < y && y in adj[x]
    decreases n
  {
    if n > 0 {
      ArcsMember(adj, n - 1, x, y);
      ForwardMember(n - 1, adj[n - 1], x, y);
      var a, f := Arcs(adj, n - 1), Forward(n - 1, adj[n - 1]);
      InConcat(a, f, (x, y));
      assert (x, y) in Arcs(adj, n) <==> (x, y) in a || (x, y) in f;
    }
  }

  //---------------------------------------------------------------------------
  // The state of the constructor's scan

  /** The scan up to (i, j) has put the edge {v, w} in the lists. */
  ghost predicate Found(p: Source, i: nat, j: nat, v: nat, w: nat)
    requires Shaped(p) && v < p.cols && w < p.cols
  {
    (Done(i, j, v, w) && Conflict(p, v, w)) || (Done(i, j, w, v) && Conflict(p, w, v))
  }

  /**
   * The matrix cg, the edge count and the lists once the scan has reached
   * pair (i, j): the numbers of the edges found so far, nothing else.
   */
  ghost predicate Built(p: Source, cg: seq<seq<int>>, edges: int, adj: seq<seq<int>>, i: nat, j: nat)
    requires Shaped(p) && i <= p.cols && j <= p.cols
  {
    |cg| == p.cols && Rect(cg, p.cols) && |adj| == p.cols
    && edges == Before(p, i) + RowCount(p, i, j)
    && |Arcs(adj, p.cols)| == edges
    && (forall a, b :: 0 <= a < p.cols && 0 <= b < p.cols ==>
          cg[a][b] == if Done(i, j, a, b) || Done(i, j, b, a) then ArcNumber(p, a, b) else 0)
    && (forall v :: 0 <= v < p.cols ==> Decreasing(adj[v]))
    && (forall v, w :: 0 <= v < p.cols ==> (w in adj[v] <==> 0 <= w < p.cols && Found(p, i, j, v, w)))
  }

  /** The lists of a scan state hold characters only. */
  lemma BuiltBounded(p: Source, cg: seq<seq<int>>, edges: int, adj: seq<seq<int>>, i: nat, j: nat)
    requires Shaped(p) && i <= p.cols && j <= p.cols && Built(p, cg, edges, adj, i, j)
    ensures forall v, w :: 0 <= v < |adj| && w in adj[v] ==> 0 <= w < p.cols
  {
  }

  lemma {:induction false} ArcsOfEmpty(adj: seq<seq<int>>, n: nat)
    requires n <= |adj| && forall v :: 0 <= v < |adj| ==> adj[v] == []
    ensures Arcs(adj, n) == []
    decreases n
  {
    if n > 0 {
      ArcsOfEmpty(adj, n - 1);
    }
  }

  /** Before the scan: no numbers, no edges, empty lists. */
  lemma ScanStart(p: Source, cg: seq<seq<int>>, adj: seq<seq<int>>)
    requires Shaped(p) && |cg| == p.cols && Rect(cg, p.cols) && |adj| == p.cols
    requires forall a, b :: 0 <= a < p.cols && 0 <= b < p.cols ==> cg[a][b] == 0
    requires forall v :: 0 <= v < p.cols ==> adj[v] == []
    ensures Built(p, cg, 0, adj, 0, 0)
  {
    ArcsOfEmpty(adj, p.cols);
  }

  /** Row i of the scan starts at column i + 1. */
  lemma RowBegin(p: Source, cg: seq<seq<int>>, edges: int, adj: seq<seq<int>>, i: nat)
    requires Shaped(p) && i < p.cols
    requires Built(p, cg, edges, adj, i, i)
    ensures Built(p, cg, edges, adj, i, i + 1)
  {
  }

  /** The end of row i is the start of row i + 1. */
  lemma RowEnd(p: Source, cg: seq<seq<int>>, edges: int, adj: seq<seq<int>>, i: nat)
    requires Shaped(p) && i < p.cols
    requires Built(p, cg, edges, adj, i, p.cols)
    ensures Built(p, cg, edges, adj, i + 1, i + 1)
  {
  }

  /** The scan skips the row of a character whose column is all zero. */
  lemma RowSkip(p: Source, cg: seq<seq<int>>, edges: int, adj: seq<seq<int>>, i: nat)
    requires Shaped(p) && i < p.cols
    requires Isolated(p.m, p.cols, |p.m| + i)
    requires Built(p, cg, edges, adj, i, i)
    ensures Built(p, cg, edges, adj, i + 1, i + 1)
  {
    RowCountIsolated(p, i, p.cols);
  }

  /** A pair that is no edge leaves the state as it is. */
  lemma ScanPass(p: Source, cg: seq<seq<int>>, edges: int, adj: seq<seq<int>>, i: nat, j: nat)
    requires Shaped(p) && i < j < p.cols
    requires Built(p, cg, edges, adj, i, j) && !Conflict(p, i, j)
    ensures Built(p, cg, edges, adj, i, j + 1)
  {
  }

  /** An edge {i, j} gets the next number, in both cells, and enters both lists. */
  lemma ScanConflict(p: Source, cg: seq<seq<int>>, edges: int, adj: seq<seq<int>>, i: nat, j: nat,
                     cg2: seq<seq<int>>)
    requires Shaped(p) && i < j < p.cols
    requires Built(p, cg, edges, adj, i, j) && Conflict(p, i, j)
    requires |cg2| == p.cols && Rect(cg2, p.cols)
    requires forall a, b :: 0 <= a < p.cols && 0 <= b < p.cols ==>
               cg2[a][b] == if (a == i && b == j) || (a == j && b == i) then edges + 1 else cg[a][b]
    ensures Built(p, cg2, edges + 1, Link(adj, i, j), i, j + 1)
  {
    var adj2 := Link(adj, i, j);
    LinkArcs(adj, i, j);
    forall v, w | 0 <= v < p.cols
      ensures w in adj2[v] <==> 0 <= w < p.cols && Found(p, i, j + 1, v, w)
    {
      LinkNeighbours(adj, i, j, v, w);
    }
    forall v | 0 <= v < p.cols
      ensures Decreasing(adj2[v])
    {
      if v == i {
        DecreasingCons(j, adj[i]);
      } else if v == j {
        DecreasingCons(i, adj[j]);
      }
    }
  }

  /**
   * The finished scan: every cell holds its edge number, edges counts all
   * conflicts, and the list of v holds, in decreasing order, exactly the
   * characters in conflict with v.
   */
  lemma ScanDone(p: Source, cg: seq<seq<int>>, edges: int, adj: seq<seq<int>>)
    requires Shaped(p) && Built(p, cg, edges, adj, p.cols, p.cols)
    ensures forall a, b :: 0 <= a < p.cols && 0 <= b < p.cols ==> cg[a][b] == ArcNumber(p, a, b)
    ensures edges == Before(p, p.cols) == |Arcs(adj, p.cols)|
    ensures forall v :: 0 <= v < p.cols ==> Decreasing(adj[v])
    ensures forall v, w :: 0 <= v < p.cols ==> (w in adj[v] <==> 0 <= w < p.cols && Conflict(p, v, w))
  {
    forall v, w | 0 <= v < p.cols
      ensures w in adj[v] <==> 0 <= w < p.cols && Conflict(p, v, w)
    {
      if 0 <= w < p.cols {
        ConflictSymmetric(p, v, w);
        NoSelfConflict(p, v);
      }
    }
  }

  //---------------------------------------------------------------------------
  // Walks along the lists

  /** q is a walk along the adjacency lists. */
  ghost predicate Path(adj: seq<seq<int>>, q: seq<int>)
  {
    |q| > 0
    && (forall k :: 0 <= k < |q| ==> 0 <= q[k] < |adj|)
    && (forall k :: 0 <= k < |q| - 1 ==> q[k + 1] in adj[q[k]])
  }

  /** Some walk along the lists leads from u to v. */
  ghost predicate Reaches(adj: seq<seq<int>>, u: int, v: int)
  {
    exists q :: Path(adj, q) && q[0] == u && q[|q| - 1] == v
  }

  lemma ReachesSelf(adj: seq<seq<int>>, u: int)
    requires 0 <= u < |adj|
    ensures Reaches(adj, u, u)
  {
    assert Path(adj, [u]);
  }

  lemma ReachesStep(adj: seq<seq<int>>, u: int, v: int, w: int)
    requires Reaches(adj, u, v) && 0 <= v < |adj| && w in adj[v] && 0 <= w < |adj|
    ensures Reaches(adj, u, w)
  {
    var q :| Path(adj, q) && q[0] == u && q[|q| - 1] == v;
    var q2 := q + [w];
    assert q2[|q2| - 2] == v;
    assert Path(adj, q2);
  }

  /** A walk that starts inside a set closed under the lists stays inside it. */
  lemma {:induction false} PathStays(adj: seq<seq<int>>, s: seq<int>, q: seq<int>)
    requires Path(adj, q) && q[0] in s
    requires forall v, w :: v in s && 0 <= v < |adj| && w in adj[v] ==> w in s
    ensures q[|q| - 1] in s
    decreases |q|
  {
    if |q| > 1 {
      var init := q[..|q| - 1];
      assert Path(adj, init);
      PathStays(adj, s, init);
      assert q[|q| - 1] in adj[q[|q| - 2]];
    }
  }

  /** s lists, once each and starting from u, exactly the vertices reachable from u. */
  ghost predicate Component(adj: seq<seq<int>>, u: int, s: seq<int>)
  {
    |s| > 0 && s[0] == u && Distinct(s)
    && forall v :: v in s <==> 0 <= v < |adj| && Reaches(adj, u, v)
  }

  /**
    compute_connected_component as written stores the -1 terminator at index
    |s| of a buffer of |adj| slots.  When every vertex lies in the component,
    |s| is |adj|: the terminator lands one past the end of the buffer.
  */
  lemma WholeComponentFillsBuffer(adj: seq<seq<int>>, u: int, s: seq<int>)
    requires Component(adj, u, s)
    requires forall v :: 0 <= v < |adj| ==> Reaches(adj, u, v)
    ensures |s| == |adj|
  {
    var r := Range(|adj|);
    PermutationOfRange(r, |adj|);
    forall x ensures x in s <==> x in r {
      if 0 <= x < |adj| {
        assert Reaches(adj, u, x);
      }
    }
    SameElementsSameLength(s, r);
  }

  /** The smallest instance: one character, no conflict; its component [0] fills the one-slot buffer. */
  lemma SingleVertexOverruns(s: seq<int>)
    requires Component([[]], 0, s)
    ensures |s| == 1 && s == [0]
  {
    ReachesSelf([[]], 0);
    WholeComponentFillsBuffer([[]], 0, s);
  }

  //---------------------------------------------------------------------------
  // The state of the visit in compute_connected_component

  /**
   * The visit from root with status st, the vertices taken off the stack so
   * far (done, in order) and the stack S: each vertex is in at most one of
   * them, exactly those are VISITED, all are reachable from root, and root
   * is the first vertex taken off the stack.
   */
  ghost predicate Dfs(adj: seq<seq<int>>, root: int, st: seq<int>, done: seq<int>, S: seq<int>)
  {
    Apart(done, S) && AllReach(adj, root, S) && AllReach(adj, root, done) && Marks(adj, st, done, S)
    && (if done == [] then S == [root] else done[0] == root)
  }

  /** A stack of reached vertices whose top is the -1 sentinel is empty. */
  lemma SentinelEmpty(adj: seq<seq<int>>, root: int, S: seq<int>)
    requires AllReach(adj, root, S) && (|S| > 0 ==> S[|S| - 1] == -1)
    ensures S == []
  {
  }

  /** Neither sequence repeats a vertex, and no vertex is in both. */
  ghost predicate Apart(done: seq<int>, S: seq<int>)
  {
    Distinct(done) && Distinct(S) && (forall x :: x in done ==> x !in S)
  }

  /** Every vertex of s is a vertex of the graph reachable from root. */
  ghost predicate AllReach(adj: seq<seq<int>>, root: int, s: seq<int>)
  {
    forall k :: 0 <= k < |s| ==> 0 <= s[k] < |adj| && Reaches(adj, root, s[k])
  }

  /** The VISITED vertices are exactly those of done and S; every other status is NOTVISITED. */
  ghost predicate Marks(adj: seq<seq<int>>, st: seq<int>, done: seq<int>, S: seq<int>)
  {
    |st| == |adj|
    && (forall v :: 0 <= v < |adj| ==> (st[v] == Visited <==> v in done || v in S))
    && (forall v :: 0 <= v < |adj| ==> st[v] == Visited || st[v] == NotVisited)
  }

  lemma ApartPop(done: seq<int>, S: seq<int>)
    requires Apart(done, S) && |S| > 0
    ensures Apart(done + [S[|S| - 1]], S[..|S| - 1])
  {
    var v := S[|S| - 1];
    var S2 := S[..|S| - 1];
    assert S == S2 + [v];
    DistinctSnoc(S2, v);
    assert v !in done;
    DistinctSnoc(done, v);
  }

  lemma ApartPush(done: seq<int>, S: seq<int>, w: int)
    requires Apart(done, S) && w !in done && w !in S
    ensures Apart(done, S + [w])
  {
    DistinctSnoc(S, w);
  }

  lemma AllReachSnoc(adj: seq<seq<int>>, root: int, s: seq<int>, v: int)
    requires AllReach(adj, root, s) && 0 <= v < |adj| && Reaches(adj, root, v)
    ensures AllReach(adj, root, s + [v])
  {
    var s2 := s + [v];
    forall k | 0 <= k < |s2| ensures 0 <= s2[k] < |adj| && Reaches(adj, root, s2[k]) {
      if k < |s| {
        assert s2[k] == s[k];
      }
    }
  }

  lemma AllReachPrefix(adj: seq<seq<int>>, root: int, s: seq<int>, n: nat)
    requires AllReach(adj, root, s) && n <= |s|
    ensures AllReach(adj, root, s[..n])
  {
    forall k | 0 <= k < n ensures 0 <= s[..n][k] < |adj| && Reaches(adj, root, s[..n][k]) {
      assert s[..n][k] == s[k];
    }
  }

  lemma MarksPop(adj: seq<seq<int>>, st: seq<int>, done: seq<int>, S: seq<int>)
    requires Marks(adj, st, done, S) && |S| > 0
    ensures Marks(adj, st, done + [S[|S| - 1]], S[..|S| - 1])
  {
    assert S == S[..|S| - 1] + [S[|S| - 1]];
  }

  lemma MarksPush(adj: seq<seq<int>>, st: seq<int>, done: seq<int>, S: seq<int>, w: int)
    requires Marks(adj, st, done, S) && 0 <= w < |adj|
    ensures Marks(adj, st[w := Visited], done, S + [w])
  {
  }

  /** The lists of the first n vertices taken off the stack hold only VISITED vertices. */
  ghost predicate Explored(adj: seq<seq<int>>, st: seq<int>, done: seq<int>, n: nat)
    requires n <= |done| && |st| == |adj|
    requires forall k :: 0 <= k < |done| ==> 0 <= done[k] < |adj|
  {
    forall k :: 0 <= k < n ==> AllVisited(st, adj[done[k]])
  }

  /** Every vertex of list l is VISITED. */
  ghost predicate AllVisited(st: seq<int>, l: seq<int>)
  {
    forall w :: w in l ==> 0 <= w < |st| && st[w] == Visited
  }

  lemma AllVisitedNext(st: seq<int>, l: seq<int>, t: nat, w: int)
    requires t < |l| && AllVisited(st, l[..t]) && 0 <= w < |st|
    requires 0 <= l[t] < |st| && (st[l[t]] == Visited || l[t] == w)
    ensures AllVisited(st[w := Visited], l[..t + 1])
  {
    assert l[..t + 1] == l[..t] + [l[t]];
  }

  lemma DfsStart(adj: seq<seq<int>>, root: int, st: seq<int>)
    requires |st| == |adj| && 0 <= root < |adj|
    requires forall v :: 0 <= v < |adj| ==> st[v] == NotVisited
    ensures Dfs(adj, root, st[root := Visited], [], [root])
    ensures Explored(adj, st[root := Visited], [], 0)
  {
    ReachesSelf(adj, root);
  }

  /** Only vertices of the graph, each at most once: the stack and the taken vertices fit in |adj|. */
  lemma DfsBound(adj: seq<seq<int>>, root: int, st: seq<int>, done: seq<int>, S: seq<int>)
    requires Dfs(adj, root, st, done, S)
    ensures |done| + |S| <= |adj|
  {
    DistinctConcat(done, S);
    var t := done + S;
    forall k | 0 <= k < |t| ensures 0 <= t[k] < |adj| {
      if k >= |done| {
        assert t[k] == S[k - |done|];
      }
    }
    DistinctBounded(t, |adj|);
  }

  /** Taking the top vertex v off the stack. */
  lemma DfsPop(adj: seq<seq<int>>, root: int, st: seq<int>, done: seq<int>, S: seq<int>)
    requires Dfs(adj, root, st, done, S) && |S| > 0
    ensures Dfs(adj, root, st, done + [S[|S| - 1]], S[..|S| - 1])
  {
    var v := S[|S| - 1];
    ApartPop(done, S);
    AllReachSnoc(adj, root, done, v);
    AllReachPrefix(adj, root, S, |S| - 1);
    MarksPop(adj, st, done, S);
    var d2 := done + [v];
    if done == [] {
      assert d2[0] == root;
    } else {
      assert d2[0] == done[0];
    }
  }

  /** A vertex taken off the stack does not disturb the lists explored before it. */
  lemma ExploredPop(adj: seq<seq<int>>, st: seq<int>, done: seq<int>, v: int)
    requires |st| == |adj| && 0 <= v < |adj|
    requires forall k :: 0 <= k < |done| ==> 0 <= done[k] < |adj|
    requires Explored(adj, st, done, |done|)
    ensures forall k :: 0 <= k < |done| + 1 ==> 0 <= (done + [v])[k] < |adj|
    ensures Explored(adj, st, done + [v], |done|)
  {
    var d2 := done + [v];
    forall k | 0 <= k < |d2| ensures 0 <= d2[k] < |adj| {
      if k < |done| {
        assert d2[k] == done[k];
      }
    }
    forall k | 0 <= k < |done| ensures AllVisited(st, adj[d2[k]]) {
      assert d2[k] == done[k];
    }
  }

  /** Pushing w, an unvisited neighbour of the last taken vertex v. */
  lemma DfsPush(adj: seq<seq<int>>, root: int, st: seq<int>, done: seq<int>, S: seq<int>, v: int, w: int)
    requires Dfs(adj, root, st, done, S) && |done| > 0 && done[|done| - 1] == v
    requires 0 <= v < |adj| && w in adj[v] && 0 <= w < |adj| && st[w] == NotVisited
    ensures Dfs(adj, root, st[w := Visited], done, S + [w])
  {
    assert done[|done| - 1] in done;
    ReachesStep(adj, root, v, w);
    ApartPush(done, S, w);
    AllReachSnoc(adj, root, S, w);
    MarksPush(adj, st, done, S, w);
  }

  /** Marking one more vertex VISITED keeps every explored list explored. */
  lemma ExploredMark(adj: seq<seq<int>>, st: seq<int>, done: seq<int>, n: nat, w: int)
    requires |st| == |adj| && n <= |done| && 0 <= w < |st|
    requires forall k :: 0 <= k < |done| ==> 0 <= done[k] < |adj|
    requires Explored(adj, st, done, n)
    ensures Explored(adj, st[w := Visited], done, n)
  {
    var st2 := st[w := Visited];
    forall k | 0 <= k < n ensures AllVisited(st2, adj[done[k]]) {
      assert AllVisited(st, adj[done[k]]);
    }
  }

  /** Once the list of the last taken vertex is all VISITED, it is explored too. */
  lemma ExploredLast(adj: seq<seq<int>>, st: seq<int>, done: seq<int>)
    requires |st| == |adj| && |done| > 0
    requires forall k :: 0 <= k < |done| ==> 0 <= done[k] < |adj|
    requires Explored(adj, st, done, |done| - 1)
    requires AllVisited(st, adj[done[|done| - 1]])
    ensures Explored(adj, st, done, |done|)
  {
  }

  /** An empty stack ends the visit: the taken vertices are the component of root. */
  lemma DfsDone(adj: seq<seq<int>>, root: int, st: seq<int>, done: seq<int>)
    requires Dfs(adj, root, st, done, [])
    requires Explored(adj, st, done, |done|)
    ensures Component(adj, root, done)
    ensures forall v :: 0 <= v < |adj| ==> (st[v] == Visited <==> Reaches(adj, root, v))
  {
    forall v, w | v in done && 0 <= v < |adj| && w in adj[v] ensures w in done {
      var k :| 0 <= k < |done| && done[k] == v;
      assert AllVisited(st, adj[done[k]]);
    }
    forall v | 0 <= v < |adj| && Reaches(adj, root, v) ensures v in done {
      var q :| Path(adj, q) && q[0] == root && q[|q| - 1] == v;
      PathStays(adj, done, q);
    }
    forall v | v in done ensures 0 <= v < |adj| && Reaches(adj, root, v) {
      var k :| 0 <= k < |done| && done[k] == v;
    }
  }

  /** The first |s| rows of a, two columns wide, hold the pairs of s. */
  ghost predicate RowsHold(a: array2<int>, s: seq<(int, int)>)
    reads a
  {
    a.Length1 == 2 && |s| <= a.Length0
    && forall r :: 0 <= r < |s| ==> (a[r, 0], a[r, 1]) == s[r]
  }

  /** The walk of one list: the arcs of list l of vertex i go to the rows from x0 on. */
  method ListRow(a: array2<int>, i: int, l: seq<int>, ghost pre: seq<(int, int)>, x0: nat) returns (x: nat)
    requires RowsHold(a, pre) && x0 == |pre| && |pre| + |Forward(i, l)| <= a.Length0
    modifies a
    ensures RowsHold(a, pre + Forward(i, l)) && x == |pre + Forward(i, l)|
  {
    x := x0;
    var t := 0;
    while t < |l|
      invariant t <= |l| && RowsHold(a, pre + Forward(i, l[..t])) && x == |pre + Forward(i, l[..t])|
    {
      ForwardPrefix(i, l, t);
      ghost var s := pre + Forward(i, l[..t]);
      if i < l[t] {
        a[x, 0] := i;
        a[x, 1] := l[t];
        x := x + 1;
        assert RowsHold(a, s + [(i, l[t])]);
        assert pre + Forward(i, l[..t + 1]) == s + [(i, l[t])];
      } else {
        assert pre + Forward(i, l[..t + 1]) == s;
      }
      t := t + 1;
    }
    assert l[..t] == l;
  }

  //---------------------------------------------------------------------------
  // The class

  /** insert_edge's intended range check: both characters are vertices. */
  predicate InRange(vertex: nat, i: int, j: int)
  {
    0 <= i < vertex && 0 <= j < vertex
  }

  /** insert_edge's range check as written: it rejects only i < 0, i > vertex, j < 0 and j > vertex. */
  predicate GuardAsWritten(vertex: nat, i: int, j: int)
  {
    !(i < 0 || i > vertex) && !(j < 0 || j > vertex)
  }

  /**
   * The written check admits the pair (vertex, 0), whose list adj[vertex]
   * lies one past the end of the table; the intended check refuses it.
   */
  lemma GuardAdmitsVertex(vertex: nat)
    ensures GuardAsWritten(vertex, vertex, 0) && !InRange(vertex, vertex, 0)
    ensures forall i, j :: GuardAsWritten(vertex, i, j) && !InRange(vertex, i, j) ==> i == vertex || j == vertex
  {
  }

  class ConflictGraph {
    var vertex: nat
    var species: nat
    /** cgraph[a, b]: the number of edge {a, b}, 0 when there is none. */
    var cgraph: array2<int>
    var edges: int
    /** The adjacency lists, newest neighbour first. */
    var adj: seq<seq<int>>
    var status: array<int>
    var mapping: array<int>
    /** Each edge once as a row (a, b), a < b. */
    var archiGabry: array2<int>

    ghost predicate Valid()
      reads this
    {
      cgraph.Length0 == vertex && cgraph.Length1 == vertex && |adj| == vertex
      && (forall v, w :: 0 <= v < vertex && w in adj[v] ==> 0 <= w < vertex)
      && status.Length == vertex && mapping.Length == vertex && archiGabry.Length1 == 2
      && status != mapping
    }

    /**
     * The constructor: edge {a, b} gets number ArcNumber(p, a, b) in
     * cgraph, edges counts them, the lists hold the conflicting characters
     * in decreasing order, every status is NOTVISITED, mapping is the
     * identity and archi_gabry lists the arcs.
     */
    constructor (m: seq<seq<int>>, righe: nat, colonne: nat, compRows: seq<int>, compCols: seq<int>)
      requires |m| == righe && Shaped(Source(m, colonne, compRows, compCols))
      ensures vertex == colonne && species == righe && Valid()
      ensures fresh(cgraph) && fresh(status) && fresh(mapping) && fresh(archiGabry)
      ensures forall a, b :: 0 <= a < colonne && 0 <= b < colonne ==>
                cgraph[a, b] == ArcNumber(Source(m, colonne, compRows, compCols), a, b)
      ensures edges == Before(Source(m, colonne, compRows, compCols), colonne)
      ensures forall v :: 0 <= v < colonne ==> Decreasing(adj[v])
      ensures forall v, w :: 0 <= v < colonne ==>
                (w in adj[v] <==> 0 <= w < colonne && Conflict(Source(m, colonne, compRows, compCols), v, w))
      ensures forall v :: 0 <= v < colonne ==> status[v] == NotVisited && mapping[v] == v
      ensures archiGabry.Length0 == edges == |Arcs(adj, colonne)|
      ensures forall r :: 0 <= r < edges ==> (archiGabry[r, 0], archiGabry[r, 1]) == Arcs(adj, colonne)[r]
    {
      vertex := colonne;
      species := righe;
      cgraph := new int[colonne, colonne];
      edges := 0;
      adj := seq(colonne, _ => []);
      status := new int[colonne];
      mapping := new int[colonne];
      archiGabry := new int[0, 2];
      new;
      ghost var p := Source(m, colonne, compRows, compCols);
      ClearMatrix();
      ScanStart(p, PolyGrb.Cells(cgraph), adj);
      BuildConflicts(m, righe, colonne, compRows, compCols);
      ghost var cells := PolyGrb.Cells(cgraph);
      ScanDone(p, cells, edges, adj);
      assert forall a, b :: 0 <= a < colonne && 0 <= b < colonne ==> cgraph[a, b] == cells[a][b];
      ResetStatus();
      Identity();
      ListArcs();
    }

    /** The zero loop over cgraph. */
    method ClearMatrix()
      requires cgraph.Length0 == vertex && cgraph.Length1 == vertex
      modifies cgraph
      ensures forall a, b :: 0 <= a < vertex && 0 <= b < vertex ==> cgraph[a, b] == 0
    {
      var i := 0;
      while i < vertex
        invariant i <= vertex
        invariant forall a, b :: 0 <= a < i && 0 <= b < vertex ==> cgraph[a, b] == 0
      {
        var j := 0;
        while j < vertex
          invariant j <= vertex
          invariant forall a, b :: 0 <= a < i && 0 <= b < vertex ==> cgraph[a, b] == 0
          invariant forall b :: 0 <= b < j ==> cgraph[i, b] == 0
        {
          cgraph[i, j] := 0;
          j := j + 1;
        }
        i := i + 1;
      }
    }

    /** The scan of the constructor: every pair i < j of characters with a nonzero entry each. */
    method BuildConflicts(m: seq<seq<int>>, righe: nat, colonne: nat, compRows: seq<int>, compCols: seq<int>)
      requires |m| == righe && Shaped(Source(m, colonne, compRows, compCols)) && colonne == vertex
      requires Valid() && Built(Source(m, colonne, compRows, compCols), PolyGrb.Cells(cgraph), edges, adj, 0, 0)
      modifies this`adj, this`edges, cgraph
      ensures Valid() && Built(Source(m, colonne, compRows, compCols), PolyGrb.Cells(cgraph), edges, adj, colonne, colonne)
    {
      ghost var p := Source(m, colonne, compRows, compCols);
      var i := 0;
      while i < vertex
        invariant i <= vertex && Valid()
        invariant Built(p, PolyGrb.Cells(cgraph), edges, adj, i, i)
      {
        var connesso := CarattereConnesso(m, righe, i);
        if connesso {
          ScanRow(m, righe, colonne, compRows, compCols, i);
        } else {
          RowSkip(p, PolyGrb.Cells(cgraph), edges, adj, i);
        }
        i := i + 1;
      }
    }

    /** Row i of the scan: the partners j > i of character i. */
    method ScanRow(m: seq<seq<int>>, righe: nat, colonne: nat, compRows: seq<int>, compCols: seq<int>, i: nat)
      requires |m| == righe && Shaped(Source(m, colonne, compRows, compCols)) && colonne == vertex
      requires i < colonne && !Isolated(m, colonne, righe + i)
      requires Valid() && Built(Source(m, colonne, compRows, compCols), PolyGrb.Cells(cgraph), edges, adj, i, i)
      modifies this`adj, this`edges, cgraph
      ensures Valid() && Built(Source(m, colonne, compRows, compCols), PolyGrb.Cells(cgraph), edges, adj, i + 1, i + 1)
    {
      ghost var p := Source(m, colonne, compRows, compCols);
      RowBegin(p, PolyGrb.Cells(cgraph), edges, adj, i);
      var j := i + 1;
      while j < vertex
        invariant i < j <= vertex && Valid()
        invariant Built(p, PolyGrb.Cells(cgraph), edges, adj, i, j)
      {
        var connesso := CarattereConnesso(m, righe, j);
        var rc := false;
        if connesso {
          rc := RedConflict(m, righe, colonne, i, j, compRows, compCols);
        }
        if rc {
          AddEdge(p, i, j);
        } else {
          ScanPass(p, PolyGrb.Cells(cgraph), edges, adj, i, j);
        }
        j := j + 1;
      }
      RowEnd(p, PolyGrb.Cells(cgraph), edges, adj, i);
    }

    /** One conflict: insert_edge(i, j), then both cells get the next number. */
    method AddEdge(ghost p: Source, i: nat, j: nat)
      requires Shaped(p) && p.cols == vertex && i < j < vertex && Conflict(p, i, j)
      requires Valid() && Built(p, PolyGrb.Cells(cgraph), edges, adj, i, j)
      modifies this`adj, this`edges, cgraph
      ensures Valid() && Built(p, PolyGrb.Cells(cgraph), edges, adj, i, j + 1)
    {
      ghost var cg := PolyGrb.Cells(cgraph);
      ghost var e := edges;
      ghost var a := adj;
      var ok := InsertEdge(i, j);
      edges := edges + 1;
      Number(i, j, edges);
      ScanConflict(p, cg, e, a, i, j, PolyGrb.Cells(cgraph));
      BuiltBounded(p, PolyGrb.Cells(cgraph), edges, adj, i, j + 1);
    }

    /** Both cells of the edge {i, j} get number x; no other cell changes. */
    method Number(i: nat, j: nat, x: int)
      requires i < cgraph.Length0 && j < cgraph.Length0 && cgraph.Length0 == cgraph.Length1
      modifies cgraph
      ensures forall r, c :: 0 <= r < cgraph.Length0 && 0 <= c < cgraph.Length1 ==>
                PolyGrb.Cells(cgraph)[r][c]
                == if (r == i && c == j) || (r == j && c == i) then x else old(PolyGrb.Cells(cgraph))[r][c]
    {
      ghost var before := PolyGrb.Cells(cgraph);
      cgraph[i, j] := x;
      cgraph[j, i] := x;
      ghost var after := PolyGrb.Cells(cgraph);
      forall r, c | 0 <= r < cgraph.Length0 && 0 <= c < cgraph.Length1
        ensures after[r][c] == if (r == i && c == j) || (r == j && c == i) then x else before[r][c]
      {
      }
    }

    /**
     * insert_edge: with both characters in range, j goes to the head of
     * i's list and i to the head of j's; otherwise the program exits
     * (ok false, nothing changed).
     */
    method InsertEdge(i: int, j: int) returns (ok: bool)
      requires |adj| == vertex
      modifies this`adj
      ensures ok <==> InRange(vertex, i, j)
      ensures ok ==> adj == Link(old(adj), i, j)
      ensures !ok ==> adj == old(adj)
    {
      if i < 0 || i >= vertex {
        return false;
      }
      if j < 0 || j >= vertex {
        return false;
      }
      adj := adj[i := [j] + adj[i]];
      adj := adj[j := [i] + adj[j]];
      return true;
    }

    /** reset_status: every vertex NOTVISITED. */
    method ResetStatus()
      requires status.Length == vertex
      modifies status
      ensures forall v :: 0 <= v < vertex ==> status[v] == NotVisited
    {
      var i := 0;
      while i < vertex
        invariant i <= vertex
        invariant forall v :: 0 <= v < i ==> status[v] == NotVisited
      {
        status[i] := NotVisited;
        i := i + 1;
      }
    }

    /** The mapping loop of the constructor: every character is its own name. */
    method Identity()
      requires mapping.Length == vertex
      modifies mapping
      ensures forall v :: 0 <= v < vertex ==> mapping[v] == v
    {
      var i := 0;
      while i < vertex
        invariant i <= vertex
        invariant forall v :: 0 <= v < i ==> mapping[v] == v
      {
        mapping[i] := i;
        i := i + 1;
      }
    }

    /** archi_gabry: edges rows set to -1, then filled by a walk of the lists, each arc from its smaller end. */
    method ListArcs()
      requires Valid() && |Arcs(adj, vertex)| == edges
      modifies this`archiGabry
      ensures Valid() && fresh(archiGabry) && archiGabry.Length0 == edges
      ensures forall r :: 0 <= r < edges ==> (archiGabry[r, 0], archiGabry[r, 1]) == Arcs(adj, vertex)[r]
    {
      var a := new int[edges, 2];
      var r := 0;
      while r < edges
        invariant r <= edges
      {
        a[r, 0] := -1;
        a[r, 1] := -1;
        r := r + 1;
      }
      var x := 0;
      var i := 0;
      while i < vertex
        invariant i <= vertex && x == |Arcs(adj, i)| && x <= edges
        invariant RowsHold(a, Arcs(adj, i))
      {
        ArcsMono(adj, i + 1, vertex);
        x := ListRow(a, i, adj[i], Arcs(adj, i), x);
        i := i + 1;
      }
      archiGabry := a;
    }

    /**
     * compute_connected_component: for a character i in range, the
     * characters reachable from i along the lists, i first, each once,
     * followed by -1 when there is room; the status of a vertex ends up
     * VISITED exactly when it is reachable.  An i out of range exits the
     * program (ok false).
     */
    method ComputeConnectedComponent(i: int) returns (ok: bool, connected: array<int>, size: nat)
      requires Valid()
      modifies status
      ensures ok <==> 0 <= i < vertex
      ensures fresh(connected) && connected.Length == vertex && size <= vertex
      ensures ok ==> Component(adj, i, connected[..size])
      ensures ok && size < vertex ==> connected[size] == -1
      ensures ok ==> forall v :: 0 <= v < vertex ==> (status[v] == Visited <==> Reaches(adj, i, v))
    {
      var stack := new int[vertex + 1];
      var top := 1;
      connected := new int[vertex];
      size := 0;
      if i < 0 || i >= vertex {
        return false, connected, size;
      }
      stack[0] := -1;
      ResetStatus();
      ghost var st := status[..];
      DfsStart(adj, i, st);
      stack[top] := i;
      status[i] := Visited;
      assert status[..] == st[i := Visited];
      assert stack[1..top + 1] == [i];
      while stack[top] != -1
        invariant 0 <= top <= vertex && size + top <= vertex && stack[0] == -1
        invariant Dfs(adj, i, status[..], connected[..size], stack[1..top + 1])
        invariant Explored(adj, status[..], connected[..size], size)
        decreases 2 * vertex - 2 * size - top
      {
        top, size := VisitTop(stack, top, connected, size, i);
      }
      SentinelEmpty(adj, i, stack[1..top + 1]);
      DfsDone(adj, i, status[..], connected[..size]);
      if size < vertex {
        connected[size] := -1;
      }
      ok := true;
    }

    /** One round of the visit: take the top vertex off the stack, then push its unvisited neighbours. */
    method VisitTop(stack: array<int>, top0: nat, connected: array<int>, size0: nat, ghost root: int)
      returns (top: nat, size: nat)
      requires Valid() && stack != status && connected != status && stack != connected
      requires stack.Length == vertex + 1 && connected.Length == vertex
      requires 0 < top0 <= vertex && size0 + top0 <= vertex && stack[0] == -1
      requires Dfs(adj, root, status[..], connected[..size0], stack[1..top0 + 1])
      requires Explored(adj, status[..], connected[..size0], size0)
      modifies stack, status, connected
      ensures 0 <= top <= vertex && size + top <= vertex && stack[0] == -1
      ensures Dfs(adj, root, status[..], connected[..size], stack[1..top + 1])
      ensures Explored(adj, status[..], connected[..size], size)
      ensures 2 * size + top > 2 * size0 + top0
    {
      ghost var done := connected[..size0];
      ghost var S := stack[1..top0 + 1];
      DfsBound(adj, root, status[..], done, S);
      assert stack[top0] == S[top0 - 1];
      var v := stack[top0];
      connected[size0] := v;
      size := size0 + 1;
      top := top0 - 1;
      DfsPop(adj, root, status[..], done, S);
      ExploredPop(adj, status[..], done, v);
      assert connected[..size] == done + [v];
      assert stack[1..top + 1] == S[..|S| - 1];
      top := PushNeighbours(v, stack, top, connected[..size], root);
      DfsBound(adj, root, status[..], connected[..size], stack[1..top + 1]);
    }

    /** The inner loop of the visit: push every unvisited vertex of v's list. */
    method PushNeighbours(v: int, stack: array<int>, top0: nat, ghost done: seq<int>, ghost root: int)
      returns (top: nat)
      requires Valid() && stack != status && stack.Length == vertex + 1 && top0 < stack.Length
      requires 0 <= v < vertex && |done| > 0 && done[|done| - 1] == v && stack[0] == -1
      requires Dfs(adj, root, status[..], done, stack[1..top0 + 1])
      requires Explored(adj, status[..], done, |done| - 1)
      modifies stack, status
      ensures top0 <= top < stack.Length && stack[0] == -1
      ensures Dfs(adj, root, status[..], done, stack[1..top + 1])
      ensures Explored(adj, status[..], done, |done|)
    {
      top := top0;
      var l := adj[v];
      var t := 0;
      while t < |l|
        invariant t <= |l| && top0 <= top < stack.Length && stack[0] == -1
        invariant Dfs(adj, root, status[..], done, stack[1..top + 1])
        invariant Explored(adj, status[..], done, |done| - 1)
        invariant AllVisited(status[..], l[..t])
      {
        var w := l[t];
        assert w in adj[v];
        AllVisitedNext(status[..], l, t, w);
        if status[w] == NotVisited {
          ghost var st := status[..];
          ghost var S := stack[1..top + 1];
          DfsPush(adj, root, st, done, S, v, w);
          ExploredMark(adj, st, done, |done| - 1, w);
          DfsBound(adj, root, st[w := Visited], done, S + [w]);
          top := top + 1;
          stack[top] := w;
          status[w] := Visited;
          assert status[..] == st[w := Visited];
          assert stack[1..top + 1] == S + [w];
        } else {
          assert status[..] == status[..][w := Visited];
        }
        t := t + 1;
      }
      assert l[..t] == l;
      ExploredLast(adj, status[..], done);
    }
  }
}
