/**
 * The red-black matrix Grb of the older polynomial-time solver and the
 * operation that makes a character universal (rendi_universale).
 *
 * Grb has one row per species and one column per character; an entry is
 * 0 (no edge), 1 (black edge) or 2 (red edge).  The connected component
 * of a character is found by the mutually recursive depth-first search
 * valuta_colonna / valuta_riga over the black and red edges, with the
 * vertex numbering of PolyComponents: rows first, then columns.
 */
module PolyGrb {
  import opened PolyMatrix
  import opened PolyComponents

  //---------------------------------------------------------------------------
  // The graph of Grb

  /** The entries of grb, row by row. */
  ghost function Cells(grb: array2<int>): (m: seq<seq<int>>)
    reads grb
    ensures |m| == grb.Length0 && Rect(m, grb.Length1)
    ensures forall r, c :: 0 <= r < grb.Length0 && 0 <= c < grb.Length1 ==> m[r][c] == grb[r, c]
  {
    seq(grb.Length0, r requires 0 <= r < grb.Length0 reads grb =>
      seq(grb.Length1, c requires 0 <= c < grb.Length1 reads grb => grb[r, c]))
  }

  /** The black-or-red edges of a Grb matrix m as a 0/1 matrix. */
  function Graph(m: seq<seq<int>>, C: nat): (g: seq<seq<int>>)
    requires Rect(m, C)
    ensures |g| == |m| && Rect(g, C)
    ensures forall r, c :: 0 <= r < |m| && 0 <= c < C ==> (g[r][c] > 0 <==> m[r][c] == 1 || m[r][c] == 2)
  {
    seq(|m|, r requires 0 <= r < |m| =>
      seq(C, c requires 0 <= c < C => if m[r][c] == 1 || m[r][c] == 2 then 1 else 0))
  }

  /** Vertex v carries a mark in tspecie (rows) or tcarattere (columns). */
  ghost predicate Marked(ts: seq<int>, tc: seq<int>, v: nat)
  {
    if v < |ts| then ts[v] != 0 else v < |ts| + |tc| && tc[v - |ts|] != 0
  }

  /** Every marked vertex off the stack of open visits has all its neighbours marked. */
  ghost predicate Explored(g: seq<seq<int>>, C: nat, ts: seq<int>, tc: seq<int>, stack: set<nat>)
    requires Rect(g, C)
  {
    forall v, w ::
      0 <= v < |g| + C && 0 <= w < |g| + C && Marked(ts, tc, v) && v !in stack && Adjacent(g, C, v, w)
      ==> Marked(ts, tc, w)
  }

  /** Marks only go from 0 to 1. */
  ghost predicate MarksGrow(t0: seq<int>, t: seq<int>)
  {
    |t| == |t0| && forall k :: 0 <= k < |t| ==> t[k] == t0[k] || (t0[k] == 0 && t[k] == 1)
  }

  /** The unmarked vertices: the termination measure of the search. */
  ghost function Unmarked(ts: seq<int>, tc: seq<int>): set<nat>
  {
    set v: nat | v < |ts| + |tc| && !Marked(ts, tc, v)
  }

  lemma MarksGrowTransitive(t0: seq<int>, t1: seq<int>, t2: seq<int>)
    requires MarksGrow(t0, t1) && MarksGrow(t1, t2)
    ensures MarksGrow(t0, t2)
  {
  }

  /** Marking a vertex that was unmarked at entry shrinks the measure. */
  lemma UnmarkedShrinks(ts0: seq<int>, tc0: seq<int>, ts: seq<int>, tc: seq<int>, v: nat)
    requires MarksGrow(ts0, ts) && MarksGrow(tc0, tc)
    requires v < |ts| + |tc| && !Marked(ts0, tc0, v) && Marked(ts, tc, v)
    ensures Unmarked(ts, tc) < Unmarked(ts0, tc0)
  {
    assert v in Unmarked(ts0, tc0) && v !in Unmarked(ts, tc);
    forall w | w in Unmarked(ts, tc) ensures w in Unmarked(ts0, tc0) {
      assert !Marked(ts0, tc0, w);
    }
  }

  /** The vertices marked since (ts0, tc0) are all connected to s. */
  ghost predicate NewReached(g: seq<seq<int>>, C: nat, s: nat, ts0: seq<int>, tc0: seq<int>, ts: seq<int>, tc: seq<int>)
    requires Rect(g, C)
  {
    forall v :: 0 <= v < |g| + C && Marked(ts, tc, v) && !Marked(ts0, tc0, v) ==> Connected(g, C, s, v)
  }

  /** Every neighbour of v is marked. */
  ghost predicate NeighboursMarked(g: seq<seq<int>>, C: nat, ts: seq<int>, tc: seq<int>, v: nat)
    requires Rect(g, C)
  {
    forall w :: 0 <= w < |g| + C && Adjacent(g, C, v, w) ==> Marked(ts, tc, w)
  }

  /** (ts2, tc2) is (ts1, tc1) with vertex v marked. */
  ghost predicate MarkOne(ts1: seq<int>, tc1: seq<int>, ts2: seq<int>, tc2: seq<int>, v: nat)
  {
    if v < |ts1| then ts2 == ts1[v := 1] && tc2 == tc1
    else v - |ts1| < |tc1| && ts2 == ts1 && tc2 == tc1[v - |ts1| := 1]
  }

  lemma MarkOneFacts(ts1: seq<int>, tc1: seq<int>, ts2: seq<int>, tc2: seq<int>, v: nat)
    requires MarkOne(ts1, tc1, ts2, tc2, v) && !Marked(ts1, tc1, v)
    ensures MarksGrow(ts1, ts2) && MarksGrow(tc1, tc2)
    ensures forall w :: Marked(ts2, tc2, w) <==> Marked(ts1, tc1, w) || w == v
  {
  }

  /**
   * The state of a search from s begun at (ts0, tc0) with the visits in
   * stack still open: marks have only grown, every closed marked vertex has
   * its neighbours marked, and every new mark is connected to s.
   */
  ghost predicate Searched(g: seq<seq<int>>, C: nat, s: nat, stack: set<nat>,
                           ts0: seq<int>, tc0: seq<int>, ts: seq<int>, tc: seq<int>)
    requires Rect(g, C)
  {
    MarksGrow(ts0, ts) && MarksGrow(tc0, tc) && Explored(g, C, ts, tc, stack)
    && NewReached(g, C, s, ts0, tc0, ts, tc)
  }

  /** Marking an unmarked v and opening its visit keeps the search invariant. */
  lemma Push(g: seq<seq<int>>, C: nat, stack: set<nat>, ts1: seq<int>, tc1: seq<int>,
             ts2: seq<int>, tc2: seq<int>, v: nat)
    requires Rect(g, C) && |ts1| == |g| && |tc1| == C
    requires Explored(g, C, ts1, tc1, stack)
    requires MarkOne(ts1, tc1, ts2, tc2, v) && !Marked(ts1, tc1, v)
    ensures Explored(g, C, ts2, tc2, stack + {v})
    ensures Unmarked(ts2, tc2) < Unmarked(ts1, tc1)
  {
    MarkOneFacts(ts1, tc1, ts2, tc2, v);
    UnmarkedShrinks(ts1, tc1, ts2, tc2, v);
  }

  /**
   * Closing the visit of v: v was marked from (ts1, tc1) to (ts2, tc2), the
   * search from v has run to (ts, tc) and marked all of v's neighbours.
   */
  lemma Pop(g: seq<seq<int>>, C: nat, v: nat, stack: set<nat>, ts1: seq<int>, tc1: seq<int>,
            ts2: seq<int>, tc2: seq<int>, ts: seq<int>, tc: seq<int>)
    requires Rect(g, C) && |ts1| == |g| && |tc1| == C && v < |g| + C
    requires MarkOne(ts1, tc1, ts2, tc2, v) && !Marked(ts1, tc1, v)
    requires Searched(g, C, v, stack + {v}, ts2, tc2, ts, tc) && NeighboursMarked(g, C, ts, tc, v)
    ensures Searched(g, C, v, stack, ts1, tc1, ts, tc) && Marked(ts, tc, v)
  {
    MarkOneFacts(ts1, tc1, ts2, tc2, v);
    MarksGrowTransitive(ts1, ts2, ts);
    MarksGrowTransitive(tc1, tc2, tc);
    ConnectedSelf(g, C, v);
  }

  /**
   * A completed search from a neighbour v of s, begun where the search
   * from s stood, extends the search from s.
   */
  lemma Through(g: seq<seq<int>>, C: nat, s: nat, v: nat, stack: set<nat>,
                ts0: seq<int>, tc0: seq<int>, ts1: seq<int>, tc1: seq<int>, ts: seq<int>, tc: seq<int>)
    requires Rect(g, C) && s < |g| + C && v < |g| + C && Adjacent(g, C, s, v)
    requires Searched(g, C, s, stack, ts0, tc0, ts1, tc1) && Searched(g, C, v, stack, ts1, tc1, ts, tc)
    ensures Searched(g, C, s, stack, ts0, tc0, ts, tc)
  {
    MarksGrowTransitive(ts0, ts1, ts);
    MarksGrowTransitive(tc0, tc1, tc);
    forall w | 0 <= w < |g| + C && Marked(ts, tc, w) && !Marked(ts0, tc0, w)
      ensures Connected(g, C, s, w)
    {
      if !Marked(ts1, tc1, w) {
        ReachedThrough(g, C, s, v, w);
      }
    }
  }

  /** Marks that only grow leave no more unmarked vertices. */
  lemma UnmarkedMono(ts0: seq<int>, tc0: seq<int>, ts: seq<int>, tc: seq<int>)
    requires MarksGrow(ts0, ts) && MarksGrow(tc0, tc)
    ensures Unmarked(ts, tc) <= Unmarked(ts0, tc0)
  {
    forall w | w in Unmarked(ts, tc) ensures w in Unmarked(ts0, tc0) {
      assert !Marked(ts0, tc0, w);
    }
  }

  /** A vertex reached from a neighbour u of s is reached from s. */
  lemma ReachedThrough(g: seq<seq<int>>, C: nat, s: nat, u: nat, v: nat)
    requires Rect(g, C) && s < |g| + C && u < |g| + C && Adjacent(g, C, s, u) && Connected(g, C, u, v)
    ensures Connected(g, C, s, v)
  {
    ConnectedSelf(g, C, s);
    ConnectedStep(g, C, s, s, u);
    ConnectedTransitive(g, C, s, u, v);
  }

  lemma ColumnNeighbours(g: seq<seq<int>>, C: nat, ts: seq<int>, tc: seq<int>, c: nat)
    requires Rect(g, C) && |ts| == |g| && c < C
    requires forall k :: 0 <= k < |g| && g[k][c] > 0 ==> ts[k] != 0
    ensures NeighboursMarked(g, C, ts, tc, |g| + c)
  {
  }

  lemma RowNeighbours(g: seq<seq<int>>, C: nat, ts: seq<int>, tc: seq<int>, r: nat)
    requires Rect(g, C) && |ts| == |g| && |tc| == C && r < |g|
    requires forall k :: 0 <= k < C && g[r][k] > 0 ==> tc[k] != 0
    ensures NeighboursMarked(g, C, ts, tc, r)
  {
    forall w | 0 <= w < |g| + C && Adjacent(g, C, r, w) ensures Marked(ts, tc, w) {
      assert g[r][w - |g|] > 0;
    }
  }

  //---------------------------------------------------------------------------
  // valuta_colonna / valuta_riga

  /**
   * valuta_colonna: mark every unmarked species joined to character c by a
   * black or red edge and search on from it.  The new marks are all
   * vertices connected to c, and c's species neighbours end up marked.
   * The ghost g is the graph of grb, which the search does not change.
   */
  method ValutaColonna(grb: array2<int>, c: nat, tspecie: array<int>, tcarattere: array<int>,
                       ghost g: seq<seq<int>>, ghost stack: set<nat>)
    requires tspecie.Length == grb.Length0 && tcarattere.Length == grb.Length1 && c < grb.Length1
    requires tspecie != tcarattere && g == Graph(Cells(grb), grb.Length1) && grb.Length0 + c in stack
    requires Explored(g, grb.Length1, tspecie[..], tcarattere[..], stack)
    modifies tspecie, tcarattere
    ensures Searched(g, grb.Length1, grb.Length0 + c, stack, old(tspecie[..]), old(tcarattere[..]), tspecie[..], tcarattere[..])
    ensures NeighboursMarked(g, grb.Length1, tspecie[..], tcarattere[..], grb.Length0 + c)
    decreases Unmarked(tspecie[..], tcarattere[..]), 1
  {
    var R, C := grb.Length0, grb.Length1;
    ghost var ts0, tc0 := tspecie[..], tcarattere[..];
    var i := 0;
    while i < R
      invariant i <= R
      invariant Searched(g, C, R + c, stack, ts0, tc0, tspecie[..], tcarattere[..])
      invariant forall k :: 0 <= k < i && g[k][c] > 0 ==> tspecie[k] != 0
    {
      if grb[i, c] == 1 || grb[i, c] == 2 {
        if tspecie[i] == 0 {
          ghost var ts1, tc1 := tspecie[..], tcarattere[..];
          UnmarkedMono(ts0, tc0, ts1, tc1);
          ReachSpecies(grb, i, tspecie, tcarattere, g, stack);
          Through(g, C, R + c, i, stack, ts0, tc0, ts1, tc1, tspecie[..], tcarattere[..]);
        }
      }
      i := i + 1;
    }
    ColumnNeighbours(g, C, tspecie[..], tcarattere[..], c);
  }

  /** The branch of valuta_colonna that marks species i and searches on from it. */
  method ReachSpecies(grb: array2<int>, i: nat, tspecie: array<int>, tcarattere: array<int>,
                        ghost g: seq<seq<int>>, ghost stack: set<nat>)
    requires tspecie.Length == grb.Length0 && tcarattere.Length == grb.Length1 && i < grb.Length0
    requires tspecie != tcarattere && g == Graph(Cells(grb), grb.Length1) && tspecie[i] == 0
    requires Explored(g, grb.Length1, tspecie[..], tcarattere[..], stack)
    modifies tspecie, tcarattere
    ensures Searched(g, grb.Length1, i, stack, old(tspecie[..]), old(tcarattere[..]), tspecie[..], tcarattere[..])
    ensures tspecie[i] != 0
    decreases Unmarked(tspecie[..], tcarattere[..]), 0
  {
    ghost var ts1, tc1 := tspecie[..], tcarattere[..];
    tspecie[i] := 1;
    assert MarkOne(ts1, tc1, tspecie[..], tcarattere[..], i);
    ghost var ts2, tc2 := tspecie[..], tcarattere[..];
    Push(g, grb.Length1, stack, ts1, tc1, ts2, tc2, i);
    ValutaRiga(grb, i, tspecie, tcarattere, g, stack + {i});
    Pop(g, grb.Length1, i, stack, ts1, tc1, ts2, tc2, tspecie[..], tcarattere[..]);
  }

  /**
   * valuta_riga: mark every unmarked character joined to species r by a
   * black or red edge and search on from it.
   */
  method ValutaRiga(grb: array2<int>, r: nat, tspecie: array<int>, tcarattere: array<int>,
                    ghost g: seq<seq<int>>, ghost stack: set<nat>)
    requires tspecie.Length == grb.Length0 && tcarattere.Length == grb.Length1 && r < grb.Length0
    requires tspecie != tcarattere && g == Graph(Cells(grb), grb.Length1) && r in stack
    requires Explored(g, grb.Length1, tspecie[..], tcarattere[..], stack)
    modifies tspecie, tcarattere
    ensures Searched(g, grb.Length1, r, stack, old(tspecie[..]), old(tcarattere[..]), tspecie[..], tcarattere[..])
    ensures NeighboursMarked(g, grb.Length1, tspecie[..], tcarattere[..], r)
    decreases Unmarked(tspecie[..], tcarattere[..]), 1
  {
    var R, C := grb.Length0, grb.Length1;
    ghost var ts0, tc0 := tspecie[..], tcarattere[..];
    var j := 0;
    while j < C
      invariant j <= C
      invariant Searched(g, C, r, stack, ts0, tc0, tspecie[..], tcarattere[..])
      invariant forall k :: 0 <= k < j && g[r][k] > 0 ==> tcarattere[k] != 0
    {
      if grb[r, j] == 1 || grb[r, j] == 2 {
        if tcarattere[j] == 0 {
          ghost var ts1, tc1 := tspecie[..], tcarattere[..];
          UnmarkedMono(ts0, tc0, ts1, tc1);
          ReachCharacter(grb, j, tspecie, tcarattere, g, stack);
          Through(g, C, r, R + j, stack, ts0, tc0, ts1, tc1, tspecie[..], tcarattere[..]);
        }
      }
      j := j + 1;
    }
    RowNeighbours(g, C, tspecie[..], tcarattere[..], r);
  }

  /** The branch of valuta_riga that marks character j and searches on from it. */
  method ReachCharacter(grb: array2<int>, j: nat, tspecie: array<int>, tcarattere: array<int>,
                           ghost g: seq<seq<int>>, ghost stack: set<nat>)
    requires tspecie.Length == grb.Length0 && tcarattere.Length == grb.Length1 && j < grb.Length1
    requires tspecie != tcarattere && g == Graph(Cells(grb), grb.Length1) && tcarattere[j] == 0
    requires Explored(g, grb.Length1, tspecie[..], tcarattere[..], stack)
    modifies tspecie, tcarattere
    ensures Searched(g, grb.Length1, grb.Length0 + j, stack, old(tspecie[..]), old(tcarattere[..]), tspecie[..], tcarattere[..])
    ensures tcarattere[j] != 0
    decreases Unmarked(tspecie[..], tcarattere[..]), 0
  {
    ghost var ts1, tc1 := tspecie[..], tcarattere[..];
    tcarattere[j] := 1;
    assert MarkOne(ts1, tc1, tspecie[..], tcarattere[..], grb.Length0 + j);
    ghost var ts2, tc2 := tspecie[..], tcarattere[..];
    Push(g, grb.Length1, stack, ts1, tc1, ts2, tc2, grb.Length0 + j);
    ValutaColonna(grb, j, tspecie, tcarattere, g, stack + {grb.Length0 + j});
    Pop(g, grb.Length1, grb.Length0 + j, stack, ts1, tc1, ts2, tc2, tspecie[..], tcarattere[..]);
  }

  //---------------------------------------------------------------------------
  // The component of a character

  /** A walk from s ends on a marked vertex or on s, once the search from s is over. */
  lemma {:induction false} WalkMarked(g: seq<seq<int>>, C: nat, ts: seq<int>, tc: seq<int>, s: nat, p: seq<nat>)
    requires Rect(g, C) && Walk(g, C, p) && p[0] == s
    requires Explored(g, C, ts, tc, {s}) && NeighboursMarked(g, C, ts, tc, s)
    ensures Marked(ts, tc, p[|p| - 1]) || p[|p| - 1] == s
    decreases |p|
  {
    if |p| > 1 {
      var q := p[..|p| - 1];
      assert Walk(g, C, q) by {
        assert forall k :: 0 <= k < |q| ==> q[k] == p[k];
      }
      WalkMarked(g, C, ts, tc, s, q);
      assert Adjacent(g, C, p[|p| - 2], p[|p| - 1]);
    }
  }

  /**
   * A search from s over a blank start marks exactly the vertices other
   * than s that are connected to s, and marks them with 1.
   */
  lemma SearchFindsComponent(g: seq<seq<int>>, C: nat, s: nat, ts0: seq<int>, tc0: seq<int>, ts: seq<int>, tc: seq<int>)
    requires Rect(g, C) && |ts0| == |g| && |tc0| == C && s < |g| + C
    requires forall k :: 0 <= k < |ts0| ==> ts0[k] == 0
    requires forall k :: 0 <= k < |tc0| ==> tc0[k] == 0
    requires Searched(g, C, s, {s}, ts0, tc0, ts, tc) && NeighboursMarked(g, C, ts, tc, s)
    ensures forall v :: 0 <= v < |g| + C && v != s ==> (Marked(ts, tc, v) <==> Connected(g, C, s, v))
    ensures forall k :: 0 <= k < |ts| ==> ts[k] == 0 || ts[k] == 1
    ensures s >= |g| ==> forall k :: 0 <= k < |g| ==> (ts[k] == 1 <==> Connected(g, C, s, k))
  {
    forall v | 0 <= v < |g| + C && v != s && Connected(g, C, s, v) ensures Marked(ts, tc, v) {
      var p :| Walk(g, C, p) && p[0] == s && p[|p| - 1] == v;
      WalkMarked(g, C, ts, tc, s, p);
    }
  }

  /** The clearing loops of the component search: every entry of t becomes 0. */
  method Azzera(t: array<int>)
    modifies t
    ensures forall k :: 0 <= k < t.Length ==> t[k] == 0
  {
    var j := 0;
    while j < t.Length
      invariant j <= t.Length
      invariant forall k :: 0 <= k < j ==> t[k] == 0
    {
      t[j] := 0;
      j := j + 1;
    }
  }

  /**
   * The connected component of character c (the two clearing loops and the
   * call of valuta_colonna in rendi_universale and aggiorna_caratteri_attivi):
   * afterwards tspecie[k] is 1 for the species of the component and 0 for
   * every other species.
   */
  method ComponenteCarattere(grb: array2<int>, c: nat, tspecie: array<int>, tcarattere: array<int>, ghost g: seq<seq<int>>)
    requires tspecie.Length == grb.Length0 && tcarattere.Length == grb.Length1 && c < grb.Length1
    requires tspecie != tcarattere && g == Graph(Cells(grb), grb.Length1)
    modifies tspecie, tcarattere
    ensures forall k :: 0 <= k < grb.Length0 ==> tspecie[k] == 0 || tspecie[k] == 1
    ensures forall k :: 0 <= k < grb.Length0 ==> (tspecie[k] == 1 <==> Connected(g, grb.Length1, grb.Length0 + c, k))
  {
    var R, C := grb.Length0, grb.Length1;
    Azzera(tspecie);
    Azzera(tcarattere);
    ghost var ts0, tc0 := tspecie[..], tcarattere[..];
    ValutaColonna(grb, c, tspecie, tcarattere, g, {R + c});
    SearchFindsComponent(g, C, R + c, ts0, tc0, tspecie[..], tcarattere[..]);
  }

  //---------------------------------------------------------------------------
  // Realized species and active characters

  /** Row r of m has no edge. */
  ghost predicate ZeroRow(m: seq<seq<int>>, r: nat)
    requires r < |m|
  {
    forall j :: 0 <= j < |m[r]| ==> m[r][j] == 0
  }

  /** Every species without edges is flagged realized. */
  ghost predicate AllRealized(m: seq<seq<int>>, z: seq<int>)
    requires |z| == |m|
  {
    forall r :: 0 <= r < |m| && ZeroRow(m, r) ==> z[r] != 0
  }

  /**
   * The flags after aggiorna_specie_realizzate: a species not yet realized
   * whose row has no edge left becomes realized.
   */
  ghost function Realized(m: seq<seq<int>>, z: seq<int>): (z': seq<int>)
    requires |z| == |m|
    ensures |z'| == |z| && AllRealized(m, z')
    ensures forall r :: 0 <= r < |z| ==> z'[r] == z[r] || (z[r] == 0 && z'[r] == 1 && ZeroRow(m, r))
  {
    seq(|z|, r requires 0 <= r < |z| => if z[r] == 0 && ZeroRow(m, r) then 1 else z[r])
  }

  /**
   * aggiorna_specie_realizzate: flag as realized every unrealized species
   * whose row of grb has no black or red edge left.
   */
  method AggiornaSpecieRealizzate(grb: array2<int>, realizzate: array<int>)
    requires realizzate.Length == grb.Length0
    modifies realizzate
    ensures realizzate[..] == Realized(Cells(grb), old(realizzate[..]))
  {
    ghost var m, z0 := Cells(grb), realizzate[..];
    var i := 0;
    while i < grb.Length0
      invariant i <= grb.Length0
      invariant forall r :: 0 <= r < i ==> realizzate[r] == Realized(m, z0)[r]
      invariant forall r :: i <= r < grb.Length0 ==> realizzate[r] == z0[r]
    {
      if realizzate[i] == 0 {
        var archi := 0;
        var j := 0;
        while j < grb.Length1
          invariant j <= grb.Length1 && archi >= 0
          invariant archi == 0 <==> forall k :: 0 <= k < j ==> grb[i, k] == 0
        {
          if grb[i, j] != 0 {
            archi := archi + 1;
          }
          j := j + 1;
        }
        if archi == 0 {
          realizzate[i] := 1;
        }
      }
      i := i + 1;
    }
  }

  /** Character c was switched off between a0 and a. */
  ghost predicate Off(a0: seq<int>, a: seq<int>, c: nat)
    requires c < |a0| && c < |a|
  {
    a0[c] == 1 && a[c] == 0
  }

  /**
   * How aggiorna_caratteri_attivi may take (m0, a0, z0) — Grb, the active
   * flags and the realized flags — to (m, a, z): characters are only
   * switched off, a switched-off character loses all its edges and no other
   * entry changes, and species are only newly realized once their row is
   * empty.
   */
  ghost predicate Evolves(m0: seq<seq<int>>, a0: seq<int>, z0: seq<int>, m: seq<seq<int>>, a: seq<int>, z: seq<int>)
  {
    |m| == |m0| && |a| == |a0| && |z0| == |m0| && |z| == |m0|
    && Rect(m0, |a0|) && Rect(m, |a0|)
    && (forall c :: 0 <= c < |a0| ==> a[c] == a0[c] || Off(a0, a, c))
    && (forall r, c :: 0 <= r < |m0| && 0 <= c < |a0| ==> m[r][c] == if Off(a0, a, c) then 0 else m0[r][c])
    && (forall r :: 0 <= r < |m0| ==> z[r] == z0[r] || (z0[r] == 0 && z[r] == 1 && ZeroRow(m, r)))
  }

  lemma EvolvesTransitive(m0: seq<seq<int>>, a0: seq<int>, z0: seq<int>, m1: seq<seq<int>>, a1: seq<int>, z1: seq<int>,
                          m: seq<seq<int>>, a: seq<int>, z: seq<int>)
    requires Evolves(m0, a0, z0, m1, a1, z1) && Evolves(m1, a1, z1, m, a, z)
    ensures Evolves(m0, a0, z0, m, a, z)
  {
    forall r | 0 <= r < |m0| && z1[r] == 1 && ZeroRow(m1, r) ensures ZeroRow(m, r) {
      forall j | 0 <= j < |m[r]| ensures m[r][j] == 0 {
        assert |m[r]| == |a1| && |m1[r]| == |a1|;
        assert m1[r][j] == 0;
        assert m[r][j] == if Off(a1, a, j) then 0 else m1[r][j];
      }
    }
    forall r, c | 0 <= r < |m0| && 0 <= c < |a0| ensures m[r][c] == if Off(a0, a, c) then 0 else m0[r][c] {
      assert m1[r][c] == if Off(a0, a1, c) then 0 else m0[r][c];
      assert m[r][c] == if Off(a1, a, c) then 0 else m1[r][c];
    }
  }

  lemma EvolvesReflexive(m: seq<seq<int>>, a: seq<int>, z: seq<int>)
    requires Rect(m, |a|) && |z| == |m|
    ensures Evolves(m, a, z, m, a, z)
  {
  }

  /** The active characters. */
  ghost function Active(a: seq<int>): set<nat>
  {
    set c: nat | c < |a| && a[c] == 1
  }

  lemma ActiveShrinks(a0: seq<int>, a: seq<int>, i: nat)
    requires |a| == |a0| && i < |a0| && Off(a0, a, i)
    requires forall c :: 0 <= c < |a0| ==> a[c] == a0[c] || Off(a0, a, c)
    ensures Active(a) < Active(a0)
  {
    assert i in Active(a0) && i !in Active(a);
    forall c | c in Active(a) ensures c in Active(a0) {
      assert a[c] == 1;
    }
  }

  /** Characters only switched off leave no more active characters. */
  lemma ActiveMono(a0: seq<int>, a: seq<int>)
    requires |a| == |a0| && forall c :: 0 <= c < |a0| ==> a[c] == a0[c] || Off(a0, a, c)
    ensures Active(a) <= Active(a0)
  {
    forall c | c in Active(a) ensures c in Active(a0) {
      assert a[c] == 1;
    }
  }

  /**
   * Character c is still needed: some species of its component is not yet
   * joined to it by a red edge.
   */
  ghost predicate Supported(m: seq<seq<int>>, C: nat, c: nat)
    requires Rect(m, C) && c < C
  {
    exists k :: 0 <= k < |m| && Connected(Graph(m, C), C, |m| + c, k) && m[k][c] != 2
  }

  /** No active character could be switched off. */
  ghost predicate Stable(m: seq<seq<int>>, a: seq<int>)
    requires Rect(m, |a|)
  {
    forall c :: 0 <= c < |a| && a[c] == 1 ==> Supported(m, |a|, c)
  }

  /** m with column c emptied. */
  ghost function ClearColumn(m: seq<seq<int>>, C: nat, c: nat): (p: seq<seq<int>>)
    requires Rect(m, C) && c < C
    ensures |p| == |m| && Rect(p, C)
    ensures forall r, j :: 0 <= r < |m| && 0 <= j < C ==> p[r][j] == if j == c then 0 else m[r][j]
  {
    seq(|m|, r requires 0 <= r < |m| => seq(C, j requires 0 <= j < C => if j == c then 0 else m[r][j]))
  }

  /** Two C-column matrices with the same rows and the same entries are equal. */
  lemma SameMatrix(p: seq<seq<int>>, q: seq<seq<int>>, C: nat)
    requires |p| == |q| && Rect(p, C) && Rect(q, C)
    requires forall r, j :: 0 <= r < |p| && 0 <= j < C ==> p[r][j] == q[r][j]
    ensures p == q
  {
    forall r | 0 <= r < |p| ensures p[r] == q[r] {
      assert |p[r]| == C == |q[r]|;
    }
  }

  /**
   * What aggiorna_caratteri_attivi leaves when its scan of Grb m, active
   * flags a and realized flags z has reached column i: an active character
   * that is no longer needed is switched off, its column emptied and the
   * realized species updated; a fresh update then runs from column 0 and,
   * once it returns, the scan goes on from column i + 1.
   */
  ghost function Scan(m: seq<seq<int>>, a: seq<int>, z: seq<int>, i: nat): (r: (seq<seq<int>>, seq<int>, seq<int>))
    requires Rect(m, |a|) && |z| == |m|
    ensures |r.0| == |m| && Rect(r.0, |a|) && |r.1| == |a| && |r.2| == |m|
    ensures Active(r.1) <= Active(a)
    decreases Active(a), |a| - i
  {
    if i >= |a| then (m, a, z)
    else if a[i] == 1 && !Supported(m, |a|, i) then
      var m1 := ClearColumn(m, |a|, i);
      var a1 := a[i := 0];
      ActiveShrinks(a, a1, i);
      var s := Scan(m1, a1, Realized(m1, z), 0);
      Scan(s.0, s.1, s.2, i + 1)
    else Scan(m, a, z, i + 1)
  }

  /** The scan passes over a character that is inactive or still needed. */
  lemma ScanSkips(m: seq<seq<int>>, a: seq<int>, z: seq<int>, i: nat)
    requires Rect(m, |a|) && |z| == |m| && i < |a|
    requires a[i] == 1 ==> Supported(m, |a|, i)
    ensures Scan(m, a, z, i) == Scan(m, a, z, i + 1)
  {
  }

  /** The scan switches off an active character no longer needed, updates from column 0, and goes on from i + 1 with fewer active characters. */
  lemma ScanSwitchesOff(m: seq<seq<int>>, a: seq<int>, z: seq<int>, i: nat)
    requires Rect(m, |a|) && |z| == |m| && i < |a| && a[i] == 1 && !Supported(m, |a|, i)
    ensures var m1 := ClearColumn(m, |a|, i);
      var s := Scan(m1, a[i := 0], Realized(m1, z), 0);
      && Scan(m, a, z, i) == Scan(s.0, s.1, s.2, i + 1)
      && Active(s.1) < Active(a)
  {
    ActiveShrinks(a, a[i := 0], i);
  }

  /** Switching off character i with its column emptied and the realized species updated is an evolution step. */
  lemma SwitchOffEvolves(m: seq<seq<int>>, a: seq<int>, z: seq<int>, i: nat)
    requires Rect(m, |a|) && |z| == |m| && i < |a| && a[i] == 1
    ensures var m1 := ClearColumn(m, |a|, i);
      Evolves(m, a, z, m1, a[i := 0], Realized(m1, z))
  {
  }

  /**
   * The scan from column i only switches characters off, as Evolves allows;
   * if it changes nothing, every active character from column i on is still
   * needed, and if it changes anything, every active character is still
   * needed and every species with an empty row is realized.
   */
  lemma {:induction false} ScanSettles(m: seq<seq<int>>, a: seq<int>, z: seq<int>, i: nat)
    requires Rect(m, |a|) && |z| == |m|
    ensures var r := Scan(m, a, z, i);
      && Evolves(m, a, z, r.0, r.1, r.2)
      && ((r == (m, a, z) && forall c :: i <= c < |a| && a[c] == 1 ==> Supported(m, |a|, c))
          || (Stable(r.0, r.1) && AllRealized(r.0, r.2)))
    decreases Active(a), |a| - i
  {
    if i >= |a| {
      EvolvesReflexive(m, a, z);
    } else if a[i] == 1 && !Supported(m, |a|, i) {
      var m1 := ClearColumn(m, |a|, i);
      var a1 := a[i := 0];
      var z1 := Realized(m1, z);
      ActiveShrinks(a, a1, i);
      SwitchOffEvolves(m, a, z, i);
      var s := Scan(m1, a1, z1, 0);
      ScanSettles(m1, a1, z1, 0);
      assert Stable(s.0, s.1) && AllRealized(s.0, s.2);
      ScanSettles(s.0, s.1, s.2, i + 1);
      var r := Scan(s.0, s.1, s.2, i + 1);
      EvolvesTransitive(m, a, z, m1, a1, z1, s.0, s.1, s.2);
      EvolvesTransitive(m, a, z, s.0, s.1, s.2, r.0, r.1, r.2);
    } else {
      ScanSettles(m, a, z, i + 1);
    }
  }

  /** On a stable Grb the scan changes nothing: updating the active characters twice is updating them once. */
  lemma {:induction false} ScanStable(m: seq<seq<int>>, a: seq<int>, z: seq<int>, i: nat)
    requires Rect(m, |a|) && |z| == |m| && Stable(m, a)
    ensures Scan(m, a, z, i) == (m, a, z)
    decreases |a| - i
  {
    if i < |a| {
      ScanStable(m, a, z, i + 1);
    }
  }

  /**
   * aggiorna_caratteri_attivi: switch off every active character joined by
   * red edges to all the species of its component, delete its edges,
   * update the realized species and start over.  Afterwards every active
   * character is still needed, and if anything changed every species left
   * without edges is realized.
   */
  method AggiornaCaratteriAttivi(grb: array2<int>, attivi: array<int>, realizzate: array<int>)
    requires attivi.Length == grb.Length1 && realizzate.Length == grb.Length0 && attivi != realizzate
    modifies grb, attivi, realizzate
    ensures (Cells(grb), attivi[..], realizzate[..]) == Scan(old(Cells(grb)), old(attivi[..]), old(realizzate[..]), 0)
    ensures Evolves(old(Cells(grb)), old(attivi[..]), old(realizzate[..]), Cells(grb), attivi[..], realizzate[..])
    ensures Stable(Cells(grb), attivi[..])
    ensures (Cells(grb) == old(Cells(grb)) && attivi[..] == old(attivi[..]) && realizzate[..] == old(realizzate[..]))
            || AllRealized(Cells(grb), realizzate[..])
    decreases Active(attivi[..]), 2
  {
    var R, C := grb.Length0, grb.Length1;
    var tspecie := new int[R];
    var tcarattere := new int[C];
    ghost var m0, a0, z0 := Cells(grb), attivi[..], realizzate[..];
    var i := 0;
    while i < C
      invariant i <= C
      invariant Active(attivi[..]) <= Active(a0)
      invariant Scan(m0, a0, z0, 0) == Scan(Cells(grb), attivi[..], realizzate[..], i)
    {
      Esamina(grb, i, attivi, realizzate, tspecie, tcarattere);
      i := i + 1;
    }
    ScanSettles(m0, a0, z0, 0);
  }

  /**
   * One turn of the loop of aggiorna_caratteri_attivi: an active character
   * i that is no longer needed is switched off, anything else is left alone.
   */
  method Esamina(grb: array2<int>, i: nat, attivi: array<int>, realizzate: array<int>,
                 tspecie: array<int>, tcarattere: array<int>)
    requires attivi.Length == grb.Length1 && realizzate.Length == grb.Length0 && i < grb.Length1
    requires tspecie.Length == grb.Length0 && tcarattere.Length == grb.Length1
    requires attivi != realizzate && tspecie != tcarattere
    requires tspecie != attivi && tspecie != realizzate && tcarattere != attivi && tcarattere != realizzate
    modifies grb, attivi, realizzate, tspecie, tcarattere
    ensures Scan(old(Cells(grb)), old(attivi[..]), old(realizzate[..]), i) == Scan(Cells(grb), attivi[..], realizzate[..], i + 1)
    ensures Active(attivi[..]) <= old(Active(attivi[..]))
    decreases Active(attivi[..]), 1
  {
    if attivi[i] == 1 {
      var flag := Necessario(grb, i, tspecie, tcarattere);
      if flag > 0 {
        ghost var a1 := attivi[..];
        attivi[i] := 1;
        assert attivi[..] == a1;
        ScanSkips(Cells(grb), attivi[..], realizzate[..], i);
      }
      if flag == 0 {
        ghost var m1, a1, z1 := Cells(grb), attivi[..], realizzate[..];
        Disattiva(grb, i, attivi, realizzate);
        ScanSwitchesOff(m1, a1, z1, i);
      }
    } else {
      ScanSkips(Cells(grb), attivi[..], realizzate[..], i);
    }
  }

  /**
   * The test of aggiorna_caratteri_attivi for one active character i:
   * compute its component and count the species of the component not
   * joined to i by a red edge.  The count is 0 exactly when i is no longer
   * needed.
   */
  method Necessario(grb: array2<int>, i: nat, tspecie: array<int>, tcarattere: array<int>) returns (flag: int)
    requires tspecie.Length == grb.Length0 && tcarattere.Length == grb.Length1 && i < grb.Length1
    requires tspecie != tcarattere
    modifies tspecie, tcarattere
    ensures flag >= 0 && (flag == 0 <==> !Supported(Cells(grb), grb.Length1, i))
  {
    ghost var g := Graph(Cells(grb), grb.Length1);
    ComponenteCarattere(grb, i, tspecie, tcarattere, g);
    flag := Unreddened(grb, i, tspecie, g);
  }

  /**
   * The branch of aggiorna_caratteri_attivi that switches off character i:
   * clear its flag and its column, update the realized species and start
   * the update over.
   */
  method Disattiva(grb: array2<int>, i: nat, attivi: array<int>, realizzate: array<int>)
    requires attivi.Length == grb.Length1 && realizzate.Length == grb.Length0 && attivi != realizzate
    requires i < grb.Length1 && attivi[i] == 1
    modifies grb, attivi, realizzate
    ensures var m1 := ClearColumn(old(Cells(grb)), grb.Length1, i);
      (Cells(grb), attivi[..], realizzate[..]) == Scan(m1, old(attivi[..])[i := 0], Realized(m1, old(realizzate[..])), 0)
    ensures Evolves(old(Cells(grb)), old(attivi[..]), old(realizzate[..]), Cells(grb), attivi[..], realizzate[..])
    ensures Stable(Cells(grb), attivi[..]) && AllRealized(Cells(grb), realizzate[..])
    decreases Active(attivi[..]), 0
  {
    ghost var m1, a1, z1 := Cells(grb), attivi[..], realizzate[..];
    attivi[i] := 0;
    SvuotaColonna(grb, i);
    ghost var m2, a2 := Cells(grb), attivi[..];
    SameMatrix(m2, ClearColumn(m1, grb.Length1, i), grb.Length1);
    assert a2 == a1[i := 0];
    assert Evolves(m1, a1, z1, m2, a2, z1);
    AggiornaSpecieRealizzate(grb, realizzate);
    ghost var z3 := realizzate[..];
    assert Evolves(m2, a2, z1, m2, a2, z3);
    EvolvesTransitive(m1, a1, z1, m2, a2, z1, m2, a2, z3);
    ActiveShrinks(a1, a2, i);
    AggiornaCaratteriAttivi(grb, attivi, realizzate);
    EvolvesTransitive(m1, a1, z1, m2, a2, z3, Cells(grb), attivi[..], realizzate[..]);
  }

  /**
   * The counting loop of aggiorna_caratteri_attivi: flag counts the species
   * of the component of character i not joined to i by a red edge, so it is
   * 0 exactly when i is no longer needed.
   */
  method Unreddened(grb: array2<int>, i: nat, tspecie: array<int>, ghost g: seq<seq<int>>) returns (flag: int)
    requires tspecie.Length == grb.Length0 && i < grb.Length1 && g == Graph(Cells(grb), grb.Length1)
    requires forall k :: 0 <= k < grb.Length0 ==> (tspecie[k] == 1 <==> Connected(g, grb.Length1, grb.Length0 + i, k))
    ensures flag >= 0 && (flag == 0 <==> !Supported(Cells(grb), grb.Length1, i))
  {
    flag := 0;
    var k := 0;
    while k < grb.Length0
      invariant k <= grb.Length0 && flag >= 0
      invariant flag == 0 <==> forall k' :: 0 <= k' < k ==> !(tspecie[k'] == 1 && grb[k', i] != 2)
    {
      if tspecie[k] == 1 && grb[k, i] != 2 {
        flag := flag + 1;
      }
      k := k + 1;
    }
  }

  /** The clearing loop of aggiorna_caratteri_attivi: column i of grb becomes all zero. */
  method SvuotaColonna(grb: array2<int>, i: nat)
    requires i < grb.Length1
    modifies grb
    ensures forall r, c :: 0 <= r < grb.Length0 && 0 <= c < grb.Length1 ==>
      grb[r, c] == if c == i then 0 else old(grb[r, c])
  {
    var specie := 0;
    while specie < grb.Length0
      invariant specie <= grb.Length0
      invariant forall r, c :: 0 <= r < grb.Length0 && 0 <= c < grb.Length1 ==>
        grb[r, c] == if c == i && r < specie then 0 else old(grb[r, c])
    {
      grb[specie, i] := 0;
      specie := specie + 1;
    }
  }

  //---------------------------------------------------------------------------
  // rendi_universale

  /**
   * Species j gets a red edge when character i is made universal: it has no
   * edge to i, lies in the component of i and is not yet realized.
   */
  ghost predicate Reddens(m: seq<seq<int>>, C: nat, z: seq<int>, i: nat, j: nat)
    requires Rect(m, C) && i < C && j < |m| && |z| == |m|
  {
    m[j][i] == 0 && Connected(Graph(m, C), C, |m| + i, j) && z[j] == 0
  }

  /**
   * Grb after the painting loop of rendi_universale: the black edges of
   * character i are deleted and the species that Reddens selects get a red
   * edge to i; nothing else changes.
   */
  ghost function Painted(m: seq<seq<int>>, C: nat, z: seq<int>, i: nat): (p: seq<seq<int>>)
    requires Rect(m, C) && i < C && |z| == |m|
    ensures |p| == |m| && Rect(p, C)
    ensures forall r, c :: 0 <= r < |m| && 0 <= c < C ==> p[r][c] == if c == i then PaintedEntry(m, C, z, i, r) else m[r][c]
  {
    seq(|m|, r requires 0 <= r < |m| =>
      seq(C, c requires 0 <= c < C => if c == i then PaintedEntry(m, C, z, i, r) else m[r][c]))
  }

  /** Entry (r, i) of Painted(m, C, z, i). */
  ghost function PaintedEntry(m: seq<seq<int>>, C: nat, z: seq<int>, i: nat, r: nat): int
    requires Rect(m, C) && i < C && r < |m| && |z| == |m|
  {
    if m[r][i] == 1 then 0
    else if Reddens(m, C, z, i, r) then 2
    else m[r][i]
  }

  /**
   * What making character i universal leaves in column i: no black edge;
   * if i stays active, a red edge exactly for the old red edges and the
   * species Reddens selects, and if i was switched off, no edge at all.
   */
  lemma UniversalColumn(m0: seq<seq<int>>, C: nat, z0: seq<int>, i: nat, a1: seq<int>,
                        m: seq<seq<int>>, a: seq<int>, z: seq<int>)
    requires Rect(m0, C) && i < C && |z0| == |m0| && |a1| == C && a1[i] == 1
    requires Evolves(Painted(m0, C, z0, i), a1, z0, m, a, z)
    ensures forall r :: 0 <= r < |m| ==> m[r][i] != 1
    ensures a[i] == 1 ==> forall r :: 0 <= r < |m| ==> (m[r][i] == 2 <==> m0[r][i] == 2 || Reddens(m0, C, z0, i, r))
    ensures a[i] != 1 ==> forall r :: 0 <= r < |m| ==> m[r][i] == 0
  {
    var p := Painted(m0, C, z0, i);
    forall r | 0 <= r < |m|
      ensures m[r][i] != 1
      ensures a[i] == 1 ==> (m[r][i] == 2 <==> m0[r][i] == 2 || Reddens(m0, C, z0, i, r))
      ensures a[i] != 1 ==> m[r][i] == 0
    {
      assert m[r][i] == if Off(a1, a, i) then 0 else p[r][i];
    }
  }

  /**
   * rendi_universale: make character i active and universal, delete its
   * black edges and give a red edge to every unrealized species of its
   * component that has no edge to i (recording the pair of columns 2i and
   * 2i+1 of the extended matrix when flag is 1), then update the active
   * characters.
   */
  method RendiUniversale(grb: array2<int>, i: nat, universali: array<int>, attivi: array<int>,
                         realizzate: array<int>, flag: int, estesa: array2<int>)
    requires i < grb.Length1 && universali.Length == grb.Length1 && attivi.Length == grb.Length1
    requires realizzate.Length == grb.Length0
    requires universali != attivi && universali != realizzate && attivi != realizzate && grb != estesa
    requires flag == 1 ==> estesa.Length0 >= grb.Length0 && estesa.Length1 >= 2 * i + 2
    modifies grb, universali, attivi, realizzate, estesa
    ensures universali[..] == old(universali[..])[i := 1]
    ensures (Cells(grb), attivi[..], realizzate[..]) ==
            Scan(Painted(old(Cells(grb)), grb.Length1, old(realizzate[..]), i), old(attivi[..])[i := 1], old(realizzate[..]), 0)
    ensures Evolves(Painted(old(Cells(grb)), grb.Length1, old(realizzate[..]), i), old(attivi[..])[i := 1],
                    old(realizzate[..]), Cells(grb), attivi[..], realizzate[..])
    ensures Stable(Cells(grb), attivi[..])
    ensures Cells(grb) == Painted(old(Cells(grb)), grb.Length1, old(realizzate[..]), i)
            || AllRealized(Cells(grb), realizzate[..])
    ensures forall r, c :: 0 <= r < estesa.Length0 && 0 <= c < estesa.Length1 ==>
      estesa[r, c] == if flag == 1 && r < grb.Length0 && (c == 2 * i || c == 2 * i + 1)
                         && Reddens(old(Cells(grb)), grb.Length1, old(realizzate[..]), i, r)
                      then 1 else old(estesa[r, c])
  {
    var R, C := grb.Length0, grb.Length1;
    var tspecie := new int[R];
    var tcarattere := new int[C];
    attivi[i] := 1;
    universali[i] := 1;
    ghost var g := Graph(Cells(grb), C);
    ComponenteCarattere(grb, i, tspecie, tcarattere, g);
    ColoraColonna(grb, i, tspecie, realizzate, flag, estesa);
    AggiornaCaratteriAttivi(grb, attivi, realizzate);
  }

  /**
   * The painting loop of rendi_universale, given the component of i in
   * tspecie.
   */
  method ColoraColonna(grb: array2<int>, i: nat, tspecie: array<int>, realizzate: array<int>,
                       flag: int, estesa: array2<int>)
    requires i < grb.Length1 && tspecie.Length == grb.Length0 && realizzate.Length == grb.Length0
    requires tspecie != realizzate && grb != estesa
    requires flag == 1 ==> estesa.Length0 >= grb.Length0 && estesa.Length1 >= 2 * i + 2
    requires forall k :: 0 <= k < grb.Length0 ==>
      (tspecie[k] == 1 <==> Connected(Graph(Cells(grb), grb.Length1), grb.Length1, grb.Length0 + i, k))
    modifies grb, estesa
    ensures Cells(grb) == Painted(old(Cells(grb)), grb.Length1, realizzate[..], i)
    ensures forall r, c :: 0 <= r < estesa.Length0 && 0 <= c < estesa.Length1 ==>
      estesa[r, c] == if flag == 1 && r < grb.Length0 && (c == 2 * i || c == 2 * i + 1)
                         && Reddens(old(Cells(grb)), grb.Length1, realizzate[..], i, r)
                      then 1 else old(estesa[r, c])
  {
    ghost var m0, z, e0 := Cells(grb), realizzate[..], Cells(estesa);
    var j := 0;
    while j < grb.Length0
      invariant j <= grb.Length0
      invariant forall r, c :: 0 <= r < grb.Length0 && 0 <= c < grb.Length1 && c != i ==> grb[r, c] == m0[r][c]
      invariant forall r :: 0 <= r < grb.Length0 ==> grb[r, i] == if r < j then PaintedEntry(m0, grb.Length1, z, i, r) else m0[r][i]
      invariant forall r, c :: 0 <= r < estesa.Length0 && 0 <= c < estesa.Length1 ==>
        estesa[r, c] == if flag == 1 && r < j && (c == 2 * i || c == 2 * i + 1) && Reddens(m0, grb.Length1, z, i, r) then 1 else e0[r][c]
    {
      ColoraSpecie(grb, i, j, tspecie, realizzate, flag, estesa, m0);
      j := j + 1;
    }
    CellsAre(grb, Painted(m0, grb.Length1, z, i));
  }

  /** One step of the painting loop of rendi_universale: the entry of species j. */
  method ColoraSpecie(grb: array2<int>, i: nat, j: nat, tspecie: array<int>, realizzate: array<int>,
                      flag: int, estesa: array2<int>, ghost m0: seq<seq<int>>)
    requires i < grb.Length1 && j < grb.Length0 && tspecie.Length == grb.Length0 && realizzate.Length == grb.Length0
    requires grb != estesa && |m0| == grb.Length0 && Rect(m0, grb.Length1) && grb[j, i] == m0[j][i]
    requires flag == 1 ==> estesa.Length0 >= grb.Length0 && estesa.Length1 >= 2 * i + 2
    requires tspecie[j] == 1 <==> Connected(Graph(m0, grb.Length1), grb.Length1, grb.Length0 + i, j)
    modifies grb, estesa
    ensures forall r, c :: 0 <= r < grb.Length0 && 0 <= c < grb.Length1 ==>
      grb[r, c] == if r == j && c == i then PaintedEntry(m0, grb.Length1, realizzate[..], i, j) else old(grb[r, c])
    ensures forall r, c :: 0 <= r < estesa.Length0 && 0 <= c < estesa.Length1 ==>
      estesa[r, c] == if flag == 1 && r == j && (c == 2 * i || c == 2 * i + 1)
                         && Reddens(m0, grb.Length1, realizzate[..], i, j)
                      then 1 else old(estesa[r, c])
  {
    if grb[j, i] == 1 {
      grb[j, i] := 0;
    } else if grb[j, i] == 0 {
      if tspecie[j] == 1 && realizzate[j] == 0 {
        grb[j, i] := 2;
        if flag == 1 {
          estesa[j, 2 * i] := 1;
          estesa[j, 2 * i + 1] := 1;
        }
      }
    }
  }

  lemma CellsAre(grb: array2<int>, p: seq<seq<int>>)
    requires |p| == grb.Length0 && Rect(p, grb.Length1)
    requires forall r, c :: 0 <= r < grb.Length0 && 0 <= c < grb.Length1 ==> grb[r, c] == p[r][c]
    ensures Cells(grb) == p
  {
    var m := Cells(grb);
    forall r | 0 <= r < |p| ensures m[r] == p[r] {
      assert |m[r]| == |p[r]|;
    }
  }
}
