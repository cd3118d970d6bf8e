/**
 * Component labelling of the older polynomial-time solver (calcola_componenti).
 *
 * The matrix is read as a bipartite graph: vertices 0 .. R-1 are the
 * species (rows), vertices R .. R+C-1 the characters (columns), and a
 * species and a character are adjacent when their entry is positive.  An
 * all-zero row or column is labelled -2; every other vertex gets the id of
 * its connected component, ids being handed out 0, 1, ... in the order in
 * which the components' first vertices appear.
 */
module PolyComponents {
  import opened PolyMatrix

  //---------------------------------------------------------------------------
  // The graph of a matrix

  /** Species u and character v (or the reverse) share a positive entry. */
  ghost predicate Adjacent(m: seq<seq<int>>, C: nat, u: int, v: int)
    requires Rect(m, C)
  {
    var R := |m|;
    (0 <= u < R && R <= v < R + C && m[u][v - R] > 0)
    || (0 <= v < R && R <= u < R + C && m[v][u - R] > 0)
  }

  /** Vertex v is an all-zero row or column (a singleton). */
  ghost predicate Isolated(m: seq<seq<int>>, C: nat, v: nat)
    requires Rect(m, C) && v < |m| + C
  {
    if v < |m| then forall j :: 0 <= j < C ==> m[v][j] == 0
    else forall i :: 0 <= i < |m| ==> m[i][v - |m|] == 0
  }

  /** Every row and every column of m is all zero. */
  ghost predicate AllIsolated(m: seq<seq<int>>, C: nat)
    requires Rect(m, C)
  {
    forall v :: 0 <= v < |m| + C ==> Isolated(m, C, v)
  }

  /** p is a walk: a non-empty sequence of vertices, each adjacent to the next. */
  ghost predicate Walk(m: seq<seq<int>>, C: nat, p: seq<nat>)
    requires Rect(m, C)
  {
    |p| > 0
    && (forall k :: 0 <= k < |p| ==> p[k] < |m| + C)
    && (forall k :: 0 <= k < |p| - 1 ==> Adjacent(m, C, p[k], p[k + 1]))
  }

  /** Some walk leads from u to v. */
  ghost predicate Connected(m: seq<seq<int>>, C: nat, u: nat, v: nat)
    requires Rect(m, C)
  {
    exists p :: Walk(m, C, p) && p[0] == u && p[|p| - 1] == v
  }

  lemma ConnectedSelf(m: seq<seq<int>>, C: nat, u: nat)
    requires Rect(m, C) && u < |m| + C
    ensures Connected(m, C, u, u)
  {
    assert Walk(m, C, [u]);
  }

  lemma ConnectedStep(m: seq<seq<int>>, C: nat, u: nat, v: nat, w: nat)
    requires Rect(m, C) && w < |m| + C
    requires Connected(m, C, u, v) && Adjacent(m, C, v, w)
    ensures Connected(m, C, u, w)
  {
    var p :| Walk(m, C, p) && p[0] == u && p[|p| - 1] == v;
    var q := p + [w];
    assert forall k :: 0 <= k < |p| ==> q[k] == p[k];
    assert Walk(m, C, q);
  }

  /** An isolated vertex has no neighbour. */
  lemma IsolatedAlone(m: seq<seq<int>>, C: nat, v: nat, w: int)
    requires Rect(m, C) && v < |m| + C && Isolated(m, C, v)
    ensures !Adjacent(m, C, v, w) && !Adjacent(m, C, w, v)
  {
  }

  /** A set of vertices, given by its flags, from which no edge leads out. */
  ghost predicate Closed(m: seq<seq<int>>, C: nat, chk: seq<bool>)
    requires Rect(m, C) && |chk| >= |m| + C
  {
    forall v, w :: 0 <= v < |m| + C && 0 <= w < |m| + C && chk[v] && Adjacent(m, C, v, w) ==> chk[w]
  }

  //---------------------------------------------------------------------------
  // The labelling invariant

  /**
   * chk (the checked flags) and comp (the labels) describe |L| complete
   * components with leaders L, plus the singletons.
   */
  ghost predicate Labelled(m: seq<seq<int>>, C: nat, chk: seq<bool>, comp: seq<int>, L: seq<nat>)
    requires Rect(m, C)
  {
    var n := |m| + C;
    |chk| == n && |comp| == n
    && Closed(m, C, chk)
    && (forall v :: 0 <= v < n ==> (Isolated(m, C, v) <==> comp[v] == -2))
    && (forall v :: 0 <= v < n && Isolated(m, C, v) ==> chk[v])
    && (forall v :: 0 <= v < n && !chk[v] ==> comp[v] == -1)
    && (forall v :: 0 <= v < n && chk[v] && !Isolated(m, C, v) ==> 0 <= comp[v] < |L|)
    && (forall v, w :: 0 <= v < n && 0 <= w < n && chk[v] && Adjacent(m, C, v, w) ==> comp[v] == comp[w])
    && Leaders(m, C, comp, L)
    && (forall v :: 0 <= v < n && |L| > 0 && v < L[|L| - 1] ==> chk[v])
  }

  /**
   * Leader k has label k, leaders increase, and every vertex labelled k
   * comes no earlier than leader k and is connected to it.
   */
  ghost predicate Leaders(m: seq<seq<int>>, C: nat, comp: seq<int>, L: seq<nat>)
    requires Rect(m, C) && |comp| == |m| + C
  {
    var n := |m| + C;
    (forall k :: 0 <= k < |L| ==> L[k] < n && comp[L[k]] == k)
    && (forall k :: 0 < k < |L| ==> L[k - 1] < L[k])
    && (forall v :: 0 <= v < n && comp[v] >= 0 ==>
          comp[v] < |L| && L[comp[v]] <= v && Connected(m, C, L[comp[v]], v))
  }

  /** The flags and labels right after the singleton scan. */
  lemma InitialLabelled(m: seq<seq<int>>, C: nat, chk: seq<bool>, comp: seq<int>)
    requires Rect(m, C) && |chk| == |m| + C && |comp| == |m| + C
    requires forall v :: 0 <= v < |m| + C ==> (chk[v] <==> Isolated(m, C, v))
    requires forall v :: 0 <= v < |m| + C ==> comp[v] == if Isolated(m, C, v) then -2 else -1
    ensures Labelled(m, C, chk, comp, [])
  {
    forall v, w | 0 <= v < |m| + C && 0 <= w < |m| + C && chk[v] && Adjacent(m, C, v, w)
      ensures false
    {
      IsolatedAlone(m, C, v, w);
    }
  }

  /**
   * Labelling the closed set grown from the first unchecked vertex s with
   * the next id adds one component with leader s.
   */
  lemma NextComponent(m: seq<seq<int>>, C: nat, chk: seq<bool>, comp: seq<int>, L: seq<nat>,
                      chk': seq<bool>, comp': seq<int>, s: nat)
    requires Rect(m, C) && Labelled(m, C, chk, comp, L)
    requires s < |m| + C && !chk[s] && forall v :: 0 <= v < s ==> chk[v]
    requires |chk'| == |m| + C && |comp'| == |m| + C && chk'[s] && Closed(m, C, chk')
    requires forall v :: 0 <= v < |m| + C && chk[v] ==> chk'[v]
    requires forall v :: 0 <= v < |m| + C && chk'[v] && !chk[v] ==> Connected(m, C, s, v)
    requires forall v :: 0 <= v < |m| + C ==> comp'[v] == if comp[v] == -1 && chk'[v] then |L| else comp[v]
    ensures Labelled(m, C, chk', comp', L + [s])
  {
    var n := |m| + C;
    NextAdjacent(m, C, chk, comp, L, chk', comp');
    if |L| > 0 {
      assert comp[L[|L| - 1]] >= 0;
      assert chk[L[|L| - 1]];
    }
    assert forall v :: 0 <= v < n ==> (comp[v] == -1 <==> !chk[v]);
    LeadersNext(m, C, chk, comp, L, chk', comp', s);
  }

  /** Neighbours carry equal labels after the new component is labelled. */
  lemma NextAdjacent(m: seq<seq<int>>, C: nat, chk: seq<bool>, comp: seq<int>, L: seq<nat>,
                     chk': seq<bool>, comp': seq<int>)
    requires Rect(m, C) && |chk| == |m| + C && |comp| == |m| + C && Closed(m, C, chk)
    requires forall v, w :: 0 <= v < |m| + C && 0 <= w < |m| + C && chk[v] && Adjacent(m, C, v, w) ==> comp[v] == comp[w]
    requires forall v :: 0 <= v < |m| + C && !chk[v] ==> comp[v] == -1
    requires forall v :: 0 <= v < |m| + C && chk[v] ==> comp[v] != -1
    requires |chk'| == |m| + C && |comp'| == |m| + C && Closed(m, C, chk')
    requires forall v :: 0 <= v < |m| + C && chk[v] ==> chk'[v]
    requires forall v :: 0 <= v < |m| + C ==> comp'[v] == if comp[v] == -1 && chk'[v] then |L| else comp[v]
    ensures forall v, w :: 0 <= v < |m| + C && 0 <= w < |m| + C && chk'[v] && Adjacent(m, C, v, w) ==> comp'[v] == comp'[w]
  {
    var n := |m| + C;
    forall v, w | 0 <= v < n && 0 <= w < n && chk'[v] && Adjacent(m, C, v, w)
      ensures comp'[v] == comp'[w]
    {
      if chk[v] {
        assert chk[w];
      }
    }
  }

  lemma LeadersNext(m: seq<seq<int>>, C: nat, chk: seq<bool>, comp: seq<int>, L: seq<nat>,
                    chk': seq<bool>, comp': seq<int>, s: nat)
    requires Rect(m, C) && |chk| == |m| + C && |comp| == |m| + C && Leaders(m, C, comp, L)
    requires forall v :: 0 <= v < |m| + C ==> (comp[v] == -1 <==> !chk[v])
    requires s < |m| + C && !chk[s] && forall v :: 0 <= v < s ==> chk[v]
    requires |L| > 0 ==> L[|L| - 1] < s
    requires |chk'| == |m| + C && |comp'| == |m| + C && chk'[s]
    requires forall v :: 0 <= v < |m| + C && chk'[v] && !chk[v] ==> Connected(m, C, s, v)
    requires forall v :: 0 <= v < |m| + C ==> comp'[v] == if comp[v] == -1 && chk'[v] then |L| else comp[v]
    ensures Leaders(m, C, comp', L + [s])
  {
    LeaderLabels(m, C, chk, comp, L, chk', comp', s);
    LeaderOrder(L, s);
    LeaderReaches(m, C, chk, comp, L, chk', comp', s);
  }

  /** Old leaders keep their labels; s gets the new one. */
  lemma LeaderLabels(m: seq<seq<int>>, C: nat, chk: seq<bool>, comp: seq<int>, L: seq<nat>,
                     chk': seq<bool>, comp': seq<int>, s: nat)
    requires Rect(m, C) && |comp| == |m| + C && |comp'| == |m| + C
    requires forall k :: 0 <= k < |L| ==> L[k] < |m| + C && comp[L[k]] == k
    requires s < |m| + C && comp[s] == -1 && |chk'| == |m| + C && chk'[s]
    requires forall v :: 0 <= v < |m| + C ==> comp'[v] == if comp[v] == -1 && chk'[v] then |L| else comp[v]
    ensures forall k :: 0 <= k < |L| + 1 ==> (L + [s])[k] < |m| + C && comp'[(L + [s])[k]] == k
  {
    var L' := L + [s];
    forall k | 0 <= k < |L'| ensures L'[k] < |m| + C && comp'[L'[k]] == k {
      if k < |L| {
        assert L'[k] == L[k] && comp[L[k]] == k;
      }
    }
  }

  /** Appending a leader beyond the last keeps the leaders increasing. */
  lemma LeaderOrder(L: seq<nat>, s: nat)
    requires forall k :: 0 < k < |L| ==> L[k - 1] < L[k]
    requires |L| > 0 ==> L[|L| - 1] < s
    ensures forall k :: 0 < k < |L| + 1 ==> (L + [s])[k - 1] < (L + [s])[k]
  {
    var L' := L + [s];
    forall k | 0 < k < |L'| ensures L'[k - 1] < L'[k] {
      if k < |L| {
        assert L'[k - 1] == L[k - 1] && L'[k] == L[k];
      }
    }
  }

  /** Every labelled vertex comes after its leader and is connected to it. */
  lemma LeaderReaches(m: seq<seq<int>>, C: nat, chk: seq<bool>, comp: seq<int>, L: seq<nat>,
                      chk': seq<bool>, comp': seq<int>, s: nat)
    requires Rect(m, C) && |chk| == |m| + C && |comp| == |m| + C && |comp'| == |m| + C
    requires forall v :: 0 <= v < |m| + C && comp[v] >= 0 ==>
               comp[v] < |L| && L[comp[v]] <= v && Connected(m, C, L[comp[v]], v)
    requires forall v :: 0 <= v < |m| + C ==> (comp[v] == -1 <==> !chk[v])
    requires s < |m| + C && forall v :: 0 <= v < s ==> chk[v]
    requires |chk'| == |m| + C
    requires forall v :: 0 <= v < |m| + C && chk'[v] && !chk[v] ==> Connected(m, C, s, v)
    requires forall v :: 0 <= v < |m| + C ==> comp'[v] == if comp[v] == -1 && chk'[v] then |L| else comp[v]
    ensures forall v :: 0 <= v < |m| + C && comp'[v] >= 0 ==>
              comp'[v] < |L| + 1 && (L + [s])[comp'[v]] <= v && Connected(m, C, (L + [s])[comp'[v]], v)
  {
    var L' := L + [s];
    forall v | 0 <= v < |m| + C && comp'[v] >= 0
      ensures comp'[v] < |L'| && L'[comp'[v]] <= v && Connected(m, C, L'[comp'[v]], v)
    {
      if comp[v] != -1 {
        assert comp'[v] == comp[v];
        assert L'[comp[v]] == L[comp[v]];
      } else {
        assert comp'[v] == |L| && L'[|L|] == s;
      }
    }
  }

  /** Strictly increasing leaders below n number at most n. */
  lemma LeadersFew(L: seq<nat>, n: nat)
    requires forall k :: 0 < k < |L| ==> L[k - 1] < L[k]
    requires forall k :: 0 <= k < |L| ==> L[k] < n
    ensures |L| <= n
  {
    LastLeaderBound(L);
  }

  lemma {:induction false} LastLeaderBound(L: seq<nat>)
    requires forall k :: 0 < k < |L| ==> L[k - 1] < L[k]
    ensures |L| > 0 ==> L[|L| - 1] >= |L| - 1
  {
    if |L| > 1 {
      LastLeaderBound(L[..|L| - 1]);
    }
  }

  //---------------------------------------------------------------------------
  // Counting unchecked vertices (the termination measure)

  ghost function Unchecked(chk: seq<bool>): nat
  {
    if chk == [] then 0 else Unchecked(chk[..|chk| - 1]) + (if chk[|chk| - 1] then 0 else 1)
  }

  /** Checking one more vertex, and possibly more, lowers the count. */
  lemma {:induction false} UncheckedDrops(a: seq<bool>, b: seq<bool>, v: nat)
    requires |a| == |b| && v < |a| && !a[v] && b[v]
    requires forall k :: 0 <= k < |a| && a[k] ==> b[k]
    ensures Unchecked(b) < Unchecked(a)
  {
    var k := |a| - 1;
    if v < k {
      UncheckedDrops(a[..k], b[..k], v);
      UncheckedMono(a[..k], b[..k]);
    } else {
      UncheckedMono(a[..k], b[..k]);
    }
  }

  lemma {:induction false} UncheckedMono(a: seq<bool>, b: seq<bool>)
    requires |a| == |b|
    requires forall k :: 0 <= k < |a| && a[k] ==> b[k]
    ensures Unchecked(b) <= Unchecked(a)
  {
    if a != [] {
      var k := |a| - 1;
      UncheckedMono(a[..k], b[..k]);
    }
  }

  lemma {:induction false} NoneUnchecked(a: seq<bool>)
    requires forall k :: 0 <= k < |a| ==> a[k]
    ensures Unchecked(a) == 0
  {
    if a != [] {
      NoneUnchecked(a[..|a| - 1]);
    }
  }

  //---------------------------------------------------------------------------
  // The loops of calcola_componenti

  /** rigaSingoletto: row r is all zero. */
  method RigaSingoletto(m: seq<seq<int>>, C: nat, r: nat) returns (b: bool)
    requires Rect(m, C) && r < |m|
    ensures b <==> Isolated(m, C, r)
  {
    var i := 0;
    while i < C
      invariant i <= C
      invariant forall j :: 0 <= j < i ==> m[r][j] == 0
    {
      if m[r][i] != 0 {
        return false;
      }
      i := i + 1;
    }
    return true;
  }

  /** colonnaSingoletto: column c is all zero. */
  method ColonnaSingoletto(m: seq<seq<int>>, C: nat, c: nat) returns (b: bool)
    requires Rect(m, C) && c < C
    ensures b <==> Isolated(m, C, |m| + c)
  {
    var i := 0;
    while i < |m|
      invariant i <= |m|
      invariant forall k :: 0 <= k < i ==> m[k][c] == 0
    {
      if m[i][c] != 0 {
        return false;
      }
      i := i + 1;
    }
    return true;
  }

  /**
   * The scan for the first unchecked vertex, stopped at the sentinel slot
   * n; as written the scan only stops at a false flag (see ScanAsWritten).
   */
  method FirstUnchecked(checked: array<bool>, n: nat) returns (s: nat)
    requires checked.Length == n + 1
    ensures s <= n && (s < n ==> !checked[s])
    ensures forall v :: 0 <= v < s ==> checked[v]
  {
    s := 0;
    while s < n && checked[s]
      invariant s <= n
      invariant forall v :: 0 <= v < s ==> checked[v]
    {
      s := s + 1;
    }
  }

  /**
   * The body of the do-while loop: check current and mark its neighbours
   * reached.  For the sentinel slot the source reads one entry past each
   * row; the model skips that read, which could only mark checked rows.
   */
  method Visit(m: seq<seq<int>>, C: nat, checked: array<bool>, reached: array<bool>, current: nat)
    requires Rect(m, C) && checked.Length == |m| + C + 1 == reached.Length
    requires checked != reached && current <= |m| + C
    modifies checked, reached
    ensures checked[..] == old(checked[..])[current := true]
    ensures reached[|m| + C] == old(reached[|m| + C])
    ensures forall v :: 0 <= v < |m| + C ==>
              (reached[v] <==> old(reached[v]) || Adjacent(m, C, current, v))
  {
    var R := |m|;
    checked[current] := true;
    if current < R {
      var j := 0;
      while j < C
        invariant j <= C
        invariant forall v :: 0 <= v < R + C + 1 && v != current ==> checked[v] == old(checked[v])
        invariant checked[current]
        invariant reached[R + C] == old(reached[R + C])
        invariant forall v :: 0 <= v < R + C ==>
                    (reached[v] <==> old(reached[v]) || (R <= v < R + j && m[current][v - R] > 0))
        modifies reached
      {
        if m[current][j] > 0 {
          reached[R + j] := true;
        }
        j := j + 1;
      }
    } else if current < R + C {
      var i := 0;
      while i < R
        invariant i <= R
        invariant reached[R + C] == old(reached[R + C])
        invariant forall v :: 0 <= v < R + C ==>
                    (reached[v] <==> old(reached[v]) || (v < i && m[v][current - R] > 0))
        modifies reached
      {
        if m[i][current - R] > 0 {
          reached[i] := true;
        }
        i := i + 1;
      }
    }
  }

  /** The scan at the end of the do-while body: the first reached, unchecked vertex, or n. */
  method NextReached(checked: array<bool>, reached: array<bool>, n: nat) returns (current: nat)
    requires checked.Length == n + 1 == reached.Length
    ensures current <= n && (current < n ==> reached[current] && !checked[current])
    ensures forall v :: 0 <= v < current ==> !(reached[v] && !checked[v])
  {
    current := 0;
    while current < n
      invariant current <= n
      invariant forall v :: 0 <= v < current ==> !(reached[v] && !checked[v])
    {
      if reached[current] && !checked[current] {
        break;
      }
      current := current + 1;
    }
  }

  /**
   * The invariant of the do-while loop, over the checked flags chk and the
   * reached flags rch (both with the sentinel slot n), growing the set c0
   * from the vertex s.
   */
  ghost predicate Growing(m: seq<seq<int>>, C: nat, c0: seq<bool>, chk: seq<bool>, rch: seq<bool>, s: nat)
    requires Rect(m, C)
  {
    var n := |m| + C;
    |c0| == n + 1 && |chk| == n + 1 && |rch| == n + 1 && chk[n] && rch[n]
    && (forall v :: 0 <= v < n && c0[v] ==> chk[v])
    && (forall v :: 0 <= v < n && chk[v] ==> rch[v])
    && (forall v :: 0 <= v < n && rch[v] && !c0[v] ==> Connected(m, C, s, v))
    && (forall v, w :: 0 <= v < n && 0 <= w < n && chk[v] && !c0[v] && Adjacent(m, C, v, w) ==> rch[w])
  }

  /** Checking one reached vertex keeps the loop invariant. */
  lemma GrowStep(m: seq<seq<int>>, C: nat, c0: seq<bool>, chk: seq<bool>, rch: seq<bool>,
                 chk': seq<bool>, rch': seq<bool>, s: nat, current: nat)
    requires Rect(m, C) && Growing(m, C, c0, chk, rch, s)
    requires current < |m| + C && rch[current] && !chk[current]
    requires chk' == chk[current := true] && |rch'| == |rch| && rch'[|m| + C] == rch[|m| + C]
    requires forall v :: 0 <= v < |m| + C ==> (rch'[v] <==> rch[v] || Adjacent(m, C, current, v))
    ensures Growing(m, C, c0, chk', rch', s)
  {
    var n := |m| + C;
    assert !c0[current] && Connected(m, C, s, current);
    forall w | 0 <= w < n && rch'[w] && !c0[w] ensures Connected(m, C, s, w) {
      if !rch[w] {
        ConnectedStep(m, C, s, current, w);
      }
    }
  }

  /** With nothing reached left unchecked, the grown set is closed. */
  lemma GrowDone(m: seq<seq<int>>, C: nat, c0: seq<bool>, chk: seq<bool>, rch: seq<bool>, s: nat)
    requires Rect(m, C) && Growing(m, C, c0, chk, rch, s) && Closed(m, C, c0)
    requires forall v :: 0 <= v < |m| + C ==> !(rch[v] && !chk[v])
    ensures Closed(m, C, chk)
    ensures forall v :: 0 <= v <= |m| + C ==> rch[v] == chk[v]
  {
    var n := |m| + C;
    forall v, w | 0 <= v < n && 0 <= w < n && chk[v] && Adjacent(m, C, v, w) ensures chk[w] {
      if !c0[v] {
        assert rch[w];
      } else {
        assert c0[w];
      }
    }
  }

  /**
   * Mark s reached, then check reached vertices until none is left: the
   * checked set grows by the vertices connected to s and stays closed.
   */
  method ExpandComponent(m: seq<seq<int>>, C: nat, checked: array<bool>, reached: array<bool>, s: nat)
    requires Rect(m, C) && checked.Length == |m| + C + 1 == reached.Length && checked != reached
    requires s <= |m| + C && checked[|m| + C] && reached[|m| + C]
    requires s < |m| + C ==> !checked[s]
    requires forall v :: 0 <= v <= |m| + C ==> reached[v] == checked[v]
    requires Closed(m, C, checked[..])
    modifies checked, reached
    ensures checked[|m| + C] && reached[|m| + C]
    ensures forall v :: 0 <= v <= |m| + C ==> reached[v] == checked[v]
    ensures Closed(m, C, checked[..])
    ensures s < |m| + C ==> checked[s]
    ensures forall v :: 0 <= v < |m| + C && old(checked[v]) ==> checked[v]
    ensures forall v :: 0 <= v < |m| + C && checked[v] && !old(checked[v]) ==> Connected(m, C, s, v)
  {
    var n := |m| + C;
    ghost var c0 := checked[..];
    if s < n {
      ConnectedSelf(m, C, s);
    }
    reached[s] := true;
    assert Growing(m, C, c0, checked[..], reached[..], s);
    var current: nat := s;
    ghost var chk, rch := checked[..], reached[..];
    Visit(m, C, checked, reached, current);
    if s < n {
      GrowStep(m, C, c0, chk, rch, checked[..], reached[..], s, s);
    } else {
      assert checked[..] == chk && reached[..] == rch;
    }
    current := NextReached(checked, reached, n);
    while current < n
      invariant current <= n && (current < n ==> reached[current] && !checked[current])
      invariant forall v :: 0 <= v < current ==> !(reached[v] && !checked[v])
      invariant Growing(m, C, c0, checked[..], reached[..], s)
      invariant s < n ==> checked[s]
      decreases Unchecked(checked[..n])
    {
      chk, rch := checked[..], reached[..];
      Visit(m, C, checked, reached, current);
      GrowStep(m, C, c0, chk, rch, checked[..], reached[..], s, current);
      UncheckedDrops(chk[..n], checked[..n], current);
      current := NextReached(checked, reached, n);
    }
    GrowDone(m, C, c0, checked[..], reached[..], s);
  }

  /**
   * The two labelling loops: checked vertices still labelled -1 get id;
   * source is the last unchecked row or column index met, or n when none
   * (for a column the source records the column's own index, which is
   * still below n).
   */
  method LabelComponent(R: nat, C: nat, checked: array<bool>, comp: array<int>, id: int)
    returns (source: nat)
    requires checked.Length == R + C + 1 && comp.Length == R + C && R > 0
    modifies comp
    ensures forall v :: 0 <= v < R + C ==>
              comp[v] == if old(comp[v]) == -1 && checked[v] then id else old(comp[v])
    ensures source <= R + C
    ensures source < R + C <==> exists v :: 0 <= v < R + C && !checked[v]
  {
    var n := R + C;
    source := n;
    var current := 0;
    while current < R
      invariant current <= R
      invariant forall v :: 0 <= v < n ==>
                  comp[v] == if v < current && old(comp[v]) == -1 && checked[v] then id else old(comp[v])
      invariant source <= n
      invariant source < n <==> exists v :: 0 <= v < current && !checked[v]
    {
      if checked[current] && comp[current] == -1 {
        comp[current] := id;
      }
      if !checked[current] {
        source := current;
      }
      current := current + 1;
    }
    current := 0;
    while current < C
      invariant current <= C
      invariant forall v :: 0 <= v < n ==>
                  comp[v] == if v < R + current && old(comp[v]) == -1 && checked[v] then id else old(comp[v])
      invariant source <= n
      invariant source < n <==> exists v :: 0 <= v < R + current && !checked[v]
    {
      if checked[R + current] && comp[R + current] == -1 {
        comp[R + current] := id;
      }
      if !checked[R + current] {
        source := current;
      }
      current := current + 1;
    }
  }

  /** The label of vertex v: a row label or a column label. */
  function Label(compRows: seq<int>, compCols: seq<int>, v: nat): int
    requires v < |compRows| + |compCols|
  {
    if v < |compRows| then compRows[v] else compCols[v - |compRows|]
  }

  /**
   * calcola_componenti: labels every row (compRows) and column (compCols)
   * and returns the last component id, or -2 when every row and column is
   * all zero.  The ghost leaders are the first vertices of the components.
   */
  method CalcolaComponenti(m: seq<seq<int>>, C: nat)
    returns (compRows: seq<int>, compCols: seq<int>, result: int, ghost leaders: seq<nat>)
    requires Rect(m, C) && |m| > 0 && C > 0
    ensures |compRows| == |m| && |compCols| == C
    ensures AllIsolated(m, C) ==> result == -2 && leaders == []
    ensures !AllIsolated(m, C) ==> result == |leaders| - 1 >= 0
    ensures forall v :: 0 <= v < |m| + C ==> (Label(compRows, compCols, v) == -2 <==> Isolated(m, C, v))
    ensures forall v :: 0 <= v < |m| + C && !Isolated(m, C, v) ==> 0 <= Label(compRows, compCols, v) < |leaders|
    ensures forall u, v :: 0 <= u < |m| + C && 0 <= v < |m| + C && Adjacent(m, C, u, v)
              ==> Label(compRows, compCols, u) == Label(compRows, compCols, v)
    ensures forall k :: 0 <= k < |leaders| ==> leaders[k] < |m| + C && Label(compRows, compCols, leaders[k]) == k
    ensures forall k :: 0 < k < |leaders| ==> leaders[k - 1] < leaders[k]
    ensures forall v :: 0 <= v < |m| + C && Label(compRows, compCols, v) >= 0 ==>
              leaders[Label(compRows, compCols, v)] <= v
              && Connected(m, C, leaders[Label(compRows, compCols, v)], v)
  {
    var R := |m|;
    var n := R + C;
    var comp := new int[n];
    var checked := new bool[n + 1];
    var reached := new bool[n + 1];
    MarkSingletons(m, C, checked, reached, comp);
    InitialLabelled(m, C, checked[..n], comp[..]);
    assert reached[..] == checked[..];
    var allSingletons, num;
    allSingletons, num, leaders := LabelRounds(m, C, checked, reached, comp);
    compRows := comp[..R];
    compCols := comp[R..];
    result := if allSingletons then -2 else num;
    Finish(m, C, checked[..n], comp[..], leaders, compRows, compCols);
  }

  /**
   * The outer loop of calcola_componenti: one round per component, until
   * the last labelling loop finds no unchecked vertex.
   */
  method LabelRounds(m: seq<seq<int>>, C: nat, checked: array<bool>, reached: array<bool>, comp: array<int>)
    returns (allSingletons: bool, num: int, ghost leaders: seq<nat>)
    requires Rect(m, C) && |m| > 0 && checked.Length == |m| + C + 1 == reached.Length && comp.Length == |m| + C
    requires checked != reached
    requires State(m, C, checked[..], reached[..], comp[..], [])
    modifies checked, reached, comp
    ensures State(m, C, checked[..], reached[..], comp[..], leaders)
    ensures forall v :: 0 <= v < |m| + C ==> checked[v]
    ensures allSingletons <==> AllIsolated(m, C)
    ensures allSingletons ==> leaders == []
    ensures !allSingletons ==> num == |leaders| - 1 >= 0
  {
    var n := |m| + C;
    allSingletons := true;
    var current: nat := 0;
    var componentId := 0;
    num := -2;
    leaders := [];
    while current < n
      invariant current <= n
      invariant State(m, C, checked[..], reached[..], comp[..], leaders)
      invariant current < n ==> componentId == |leaders|
      invariant componentId == 0 ==> current == 0 && allSingletons && leaders == []
      invariant componentId > 0 ==> num == componentId - 1
      invariant componentId > 0 && current == n ==> forall v :: 0 <= v < n ==> checked[v]
      invariant componentId > 0 && current < n ==> exists v :: 0 <= v < n && !checked[v]
      invariant allSingletons ==> leaders == []
      invariant !allSingletons ==> |leaders| == componentId
      invariant |leaders| <= n
      decreases n - |leaders|, n - current
    {
      var s, source;
      s, source, leaders := Round(m, C, checked, reached, comp, componentId, leaders);
      LeadersFew(leaders, n);
      if s < n {
        allSingletons := false;
      }
      current := source;
      num := componentId;
      componentId := componentId + 1;
    }
    if allSingletons {
      NothingUncheckedMeansIsolated(m, C, checked[..][..n], comp[..]);
    } else {
      assert !Isolated(m, C, leaders[0]);
    }
  }

  /**
   * When the first scan finds nothing unchecked, every vertex was checked
   * by the singleton loops, so every row and column is all zero.
   */
  lemma NothingUncheckedMeansIsolated(m: seq<seq<int>>, C: nat, chk: seq<bool>, comp: seq<int>)
    requires Rect(m, C) && Labelled(m, C, chk, comp, [])
    requires forall v :: 0 <= v < |m| + C ==> chk[v]
    ensures AllIsolated(m, C)
  {
  }

  /**
   * The flags and labels between rounds: sentinels set, reached equal to
   * checked, and the labelling invariant on the first n slots.
   */
  ghost predicate State(m: seq<seq<int>>, C: nat, chk: seq<bool>, rch: seq<bool>, comp: seq<int>, L: seq<nat>)
    requires Rect(m, C)
  {
    var n := |m| + C;
    |chk| == n + 1 && rch == chk && |comp| == n && chk[n]
    && Labelled(m, C, chk[..n], comp, L)
  }

  /** The two singleton loops of calcola_componenti, with the sentinel slots set. */
  method MarkSingletons(m: seq<seq<int>>, C: nat, checked: array<bool>, reached: array<bool>, comp: array<int>)
    requires Rect(m, C) && checked.Length == |m| + C + 1 == reached.Length && comp.Length == |m| + C
    requires checked != reached
    modifies checked, reached, comp
    ensures checked[|m| + C] && reached[|m| + C]
    ensures forall k :: 0 <= k < |m| + C ==> checked[k] == reached[k] == Isolated(m, C, k)
    ensures forall k :: 0 <= k < |m| + C ==> comp[k] == if Isolated(m, C, k) then -2 else -1
  {
    var R := |m|;
    var n := R + C;
    checked[n] := true;
    reached[n] := true;
    var i := 0;
    while i < C
      invariant i <= C
      invariant checked[n] && reached[n]
      invariant forall k :: R <= k < R + i ==> checked[k] == reached[k] == Isolated(m, C, k)
      invariant forall k :: R <= k < R + i ==> comp[k] == if Isolated(m, C, k) then -2 else -1
    {
      var single := ColonnaSingoletto(m, C, i);
      if single {
        comp[R + i] := -2;
        checked[R + i] := true;
        reached[R + i] := true;
      } else {
        comp[R + i] := -1;
        checked[R + i] := false;
        reached[R + i] := false;
      }
      i := i + 1;
    }
    i := 0;
    while i < R
      invariant i <= R
      invariant checked[n] && reached[n]
      invariant forall k :: (0 <= k < i || R <= k < n) ==> checked[k] == reached[k] == Isolated(m, C, k)
      invariant forall k :: (0 <= k < i || R <= k < n) ==> comp[k] == if Isolated(m, C, k) then -2 else -1
    {
      var single := RigaSingoletto(m, C, i);
      if single {
        comp[i] := -2;
        checked[i] := true;
        reached[i] := true;
      } else {
        comp[i] := -1;
        checked[i] := false;
        reached[i] := false;
      }
      i := i + 1;
    }
  }

  /**
   * One round of the outer loop: find the first unchecked vertex s, grow
   * its component and label it with id.  When nothing is unchecked, s is
   * the sentinel n and nothing changes.
   */
  method Round(m: seq<seq<int>>, C: nat, checked: array<bool>, reached: array<bool>, comp: array<int>,
               id: int, ghost L: seq<nat>)
    returns (s: nat, source: nat, ghost L': seq<nat>)
    requires Rect(m, C) && |m| > 0 && checked.Length == |m| + C + 1 == reached.Length && comp.Length == |m| + C
    requires checked != reached
    requires State(m, C, checked[..], reached[..], comp[..], L) && id == |L|
    modifies checked, reached, comp
    ensures State(m, C, checked[..], reached[..], comp[..], L')
    ensures s <= |m| + C && source <= |m| + C
    ensures s < |m| + C ==> !old(checked[s])
    ensures s < |m| + C ==> L' == L + [s]
    ensures s == |m| + C ==> L' == L && checked[..] == old(checked[..])
    ensures s == |m| + C ==> forall v :: 0 <= v < |m| + C ==> old(checked[v])
    ensures source < |m| + C ==> exists v :: 0 <= v < |m| + C && !checked[v]
    ensures source == |m| + C ==> forall v :: 0 <= v < |m| + C ==> checked[v]
  {
    var n := |m| + C;
    ghost var c0 := checked[..];
    ghost var lab := comp[..];
    s := FirstUnchecked(checked, n);
    ExpandComponent(m, C, checked, reached, s);
    source := LabelComponent(|m|, C, checked, comp, id);
    L' := if s < n then L + [s] else L;
    assert reached[..] == checked[..];
    RoundDone(m, C, c0, lab, L, checked[..], reached[..], comp[..], s);
  }

  /** What a round leaves behind: the flags and labels before (c0, lab) and after it, as sequences. */
  ghost predicate RoundFacts(m: seq<seq<int>>, C: nat, c0: seq<bool>, lab: seq<int>, L: seq<nat>,
                             chk': seq<bool>, rch': seq<bool>, comp': seq<int>, s: nat)
    requires Rect(m, C)
  {
    && |c0| == |m| + C + 1 && c0[|m| + C] && Labelled(m, C, c0[..|m| + C], lab, L)
    && s <= |m| + C && (s < |m| + C ==> !c0[s]) && (forall v :: 0 <= v < s ==> c0[v])
    && |chk'| == |m| + C + 1 && chk'[|m| + C] && rch' == chk'
    && Closed(m, C, chk') && (s < |m| + C ==> chk'[s])
    && (forall v :: 0 <= v < |m| + C && c0[v] ==> chk'[v])
    && (forall v :: 0 <= v < |m| + C && chk'[v] && !c0[v] ==> Connected(m, C, s, v))
    && |comp'| == |m| + C
    && (forall v :: 0 <= v < |m| + C ==> comp'[v] == if lab[v] == -1 && chk'[v] then |L| else lab[v])
  }

  /** The flags and labels after a round, read as sequences. */
  lemma RoundDone(m: seq<seq<int>>, C: nat, c0: seq<bool>, lab: seq<int>, L: seq<nat>,
                  chk': seq<bool>, rch': seq<bool>, comp': seq<int>, s: nat)
    requires Rect(m, C) && RoundFacts(m, C, c0, lab, L, chk', rch', comp', s)
    ensures State(m, C, chk', rch', comp', if s < |m| + C then L + [s] else L)
    ensures s == |m| + C ==> chk' == c0
  {
    if s < |m| + C {
      RoundNext(m, C, c0, lab, L, chk', rch', comp', s);
    } else {
      RoundNone(m, C, c0, lab, L, chk', rch', comp', s);
    }
  }

  /** A round that found an unchecked vertex s labels s's component with the next number. */
  lemma RoundNext(m: seq<seq<int>>, C: nat, c0: seq<bool>, lab: seq<int>, L: seq<nat>,
                  chk': seq<bool>, rch': seq<bool>, comp': seq<int>, s: nat)
    requires Rect(m, C) && RoundFacts(m, C, c0, lab, L, chk', rch', comp', s) && s < |m| + C
    ensures State(m, C, chk', rch', comp', L + [s])
  {
    var n := |m| + C;
    NextComponent(m, C, c0[..n], lab, L, chk'[..n], comp', s);
  }

  /** A round that found the sentinel leaves the flags as they were. */
  lemma RoundNone(m: seq<seq<int>>, C: nat, c0: seq<bool>, lab: seq<int>, L: seq<nat>,
                  chk': seq<bool>, rch': seq<bool>, comp': seq<int>, s: nat)
    requires Rect(m, C) && RoundFacts(m, C, c0, lab, L, chk', rch', comp', s) && s == |m| + C
    ensures State(m, C, chk', rch', comp', L) && chk' == c0
  {
    var n := |m| + C;
    NothingLeft(m, C, c0[..n], lab, L, chk'[..n], comp');
    assert forall v :: 0 <= v <= n ==> chk'[v] == c0[v];
  }

  /** A round that finds every vertex checked changes nothing. */
  lemma NothingLeft(m: seq<seq<int>>, C: nat, chk: seq<bool>, lab: seq<int>, L: seq<nat>,
                    chk': seq<bool>, comp': seq<int>)
    requires Rect(m, C) && Labelled(m, C, chk, lab, L)
    requires forall v :: 0 <= v < |m| + C ==> chk[v]
    requires |chk'| == |m| + C && forall v :: 0 <= v < |m| + C && chk[v] ==> chk'[v]
    requires |comp'| == |m| + C
    requires forall v :: 0 <= v < |m| + C ==> comp'[v] == if lab[v] == -1 && chk'[v] then |L| else lab[v]
    ensures chk' == chk && comp' == lab
  {
    assert forall v :: 0 <= v < |m| + C ==> lab[v] != -1;
  }

  /** Reading the final labels as row labels and column labels. */
  lemma Finish(m: seq<seq<int>>, C: nat, chk: seq<bool>, comp: seq<int>, L: seq<nat>,
               compRows: seq<int>, compCols: seq<int>)
    requires Rect(m, C) && Labelled(m, C, chk, comp, L)
    requires forall v :: 0 <= v < |m| + C ==> chk[v]
    requires compRows == comp[..|m|] && compCols == comp[|m|..]
    ensures forall v :: 0 <= v < |m| + C ==> (Label(compRows, compCols, v) == -2 <==> Isolated(m, C, v))
    ensures forall v :: 0 <= v < |m| + C && !Isolated(m, C, v) ==> 0 <= Label(compRows, compCols, v) < |L|
    ensures forall u, v :: 0 <= u < |m| + C && 0 <= v < |m| + C && Adjacent(m, C, u, v)
              ==> Label(compRows, compCols, u) == Label(compRows, compCols, v)
    ensures forall k :: 0 <= k < |L| ==> L[k] < |m| + C && Label(compRows, compCols, L[k]) == k
    ensures forall k :: 0 < k < |L| ==> L[k - 1] < L[k]
    ensures forall v :: 0 <= v < |m| + C && Label(compRows, compCols, v) >= 0 ==>
              L[Label(compRows, compCols, v)] <= v
              && Connected(m, C, L[Label(compRows, compCols, v)], v)
  {
    assert forall v :: 0 <= v < |m| + C ==> Label(compRows, compCols, v) == comp[v];
  }

  //---------------------------------------------------------------------------
  // Labels are exactly the connected components

  /** The walk p read backwards. */
  lemma ConnectedSymmetric(m: seq<seq<int>>, C: nat, u: nat, v: nat)
    requires Rect(m, C) && Connected(m, C, u, v)
    ensures Connected(m, C, v, u)
  {
    var p :| Walk(m, C, p) && p[0] == u && p[|p| - 1] == v;
    var q := seq(|p|, k requires 0 <= k < |p| => p[|p| - 1 - k]);
    forall k | 0 <= k < |q| - 1 ensures Adjacent(m, C, q[k], q[k + 1]) {
      assert Adjacent(m, C, p[|p| - 2 - k], p[|p| - 1 - k]);
    }
    assert Walk(m, C, q);
  }

  /** Two walks that meet chain into one. */
  lemma ConnectedTransitive(m: seq<seq<int>>, C: nat, u: nat, v: nat, w: nat)
    requires Rect(m, C) && Connected(m, C, u, v) && Connected(m, C, v, w)
    ensures Connected(m, C, u, w)
  {
    var p :| Walk(m, C, p) && p[0] == u && p[|p| - 1] == v;
    var q :| Walk(m, C, q) && q[0] == v && q[|q| - 1] == w;
    var r := p + q[1..];
    forall k | 0 <= k < |r| - 1 ensures Adjacent(m, C, r[k], r[k + 1]) {
      if k < |p| - 1 {
        assert r[k] == p[k] && r[k + 1] == p[k + 1];
      } else {
        assert r[k] == q[k - |p| + 1] && r[k + 1] == q[k - |p| + 2];
      }
    }
    assert Walk(m, C, r);
  }

  /** A labelling that agrees across every edge agrees along every walk. */
  lemma {:induction false} WalkSameLabel(m: seq<seq<int>>, C: nat, compRows: seq<int>, compCols: seq<int>, p: seq<nat>)
    requires Rect(m, C) && |compRows| == |m| && |compCols| == C
    requires forall u, v :: 0 <= u < |m| + C && 0 <= v < |m| + C && Adjacent(m, C, u, v)
               ==> Label(compRows, compCols, u) == Label(compRows, compCols, v)
    requires Walk(m, C, p)
    ensures Label(compRows, compCols, p[0]) == Label(compRows, compCols, p[|p| - 1])
  {
    if |p| > 1 {
      var q := p[..|p| - 1];
      assert Walk(m, C, q);
      WalkSameLabel(m, C, compRows, compCols, q);
      assert Adjacent(m, C, p[|p| - 2], p[|p| - 1]);
    }
  }

  /**
   * With the labels calcola_componenti returns, two vertices of a
   * non-trivial component share a label exactly when they are connected.
   */
  lemma LabelsAreComponents(m: seq<seq<int>>, C: nat, compRows: seq<int>, compCols: seq<int>,
                            leaders: seq<nat>, u: nat, v: nat)
    requires Rect(m, C) && |compRows| == |m| && |compCols| == C
    requires u < |m| + C && v < |m| + C && Label(compRows, compCols, u) >= 0
    requires forall x, y :: 0 <= x < |m| + C && 0 <= y < |m| + C && Adjacent(m, C, x, y)
               ==> Label(compRows, compCols, x) == Label(compRows, compCols, y)
    requires forall x :: 0 <= x < |m| + C && Label(compRows, compCols, x) >= 0 ==>
               Label(compRows, compCols, x) < |leaders|
               && Connected(m, C, leaders[Label(compRows, compCols, x)], x)
    ensures Label(compRows, compCols, u) == Label(compRows, compCols, v) <==> Connected(m, C, u, v)
  {
    if Connected(m, C, u, v) {
      var p :| Walk(m, C, p) && p[0] == u && p[|p| - 1] == v;
      WalkSameLabel(m, C, compRows, compCols, p);
    }
    if Label(compRows, compCols, u) == Label(compRows, compCols, v) {
      var l := leaders[Label(compRows, compCols, u)];
      ConnectedSymmetric(m, C, l, u);
      ConnectedTransitive(m, C, u, l, v);
    }
  }

  //---------------------------------------------------------------------------
  // The first-vertex scan as written

  /**
   * The scan for the first unchecked vertex as the source writes it: it
   * stops only at a false flag, and the sentinel slot is true, so a result
   * equal to |chk| means the scan read past the last slot.
   */
  function ScanAsWritten(chk: seq<bool>, from: nat): (r: nat)
    requires from <= |chk|
    ensures from <= r <= |chk|
    ensures r < |chk| ==> !chk[r]
    ensures forall k :: from <= k < r ==> chk[k]
    decreases |chk| - from
  {
    if from == |chk| then |chk|
    else if !chk[from] then from
    else ScanAsWritten(chk, from + 1)
  }

  /** The checked flags after the singleton loops, sentinel included. */
  ghost function InitialChecked(m: seq<seq<int>>, C: nat): (chk: seq<bool>)
    requires Rect(m, C)
    ensures |chk| == |m| + C + 1 && chk[|m| + C]
    ensures forall v :: 0 <= v < |m| + C ==> (chk[v] <==> Isolated(m, C, v))
  {
    seq(|m| + C + 1, v requires 0 <= v <= |m| + C => v == |m| + C || Isolated(m, C, v))
  }

  /**
   * A matrix whose every row and column is zero, such as the 1x1 matrix
   * [[0]], checks every vertex in the singleton loops, so the first scan
   * as written runs past the sentinel slot; the bounded scan of
   * FirstUnchecked stops at the sentinel.
   */
  lemma ScanOverruns()
    ensures ScanAsWritten(InitialChecked([[0]], 1), 0) == |InitialChecked([[0]], 1)|
  {
    var chk := InitialChecked([[0]], 1);
    assert Isolated([[0]], 1, 0) && Isolated([[0]], 1, 1);
    assert chk[0] && chk[1] && chk[2];
  }
}
