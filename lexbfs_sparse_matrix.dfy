/**
 * The LexBFS library's sparse 0/1 matrix: column i is clique i, the list of
 * rows holding a 1 in that column. The consecutive-ones test first appends an
 * identity matrix below the rows, numbers the columns by a lexicographic
 * breadth-first search over cliques (Algorithm 10 of Habib, McConnell, Paul
 * and Viennot), refines an ordered partition of the columns (their
 * Algorithm 8), and removes the identity rows again before returning.
 */
module LexSparseMatrix {
  import opened Seqs
  import opened LexClique
  import opened LexCliqueClasses
  import opened LexRefinement

  /** Two clique lists that differ at most in the cliques' labels. */
  predicate SameButLabels(cl: seq<Clique>, cl': seq<Clique>)
  {
    |cl'| == |cl| &&
    forall c :: 0 <= c < |cl| ==>
      cl'[c].vertices == cl[c].vertices && cl'[c].id == cl[c].id && cl'[c].number == cl[c].number
  }

  /**
   * The number of vertices the clique-list constructor derives: the largest
   * `last vertex + 1` over the first n cliques, computed in unsigned
   * arithmetic, or 0 for no clique.
   */
  function MaxSuccessor(cl: seq<Clique>, n: nat): nat
    requires n <= |cl|
    requires forall c :: 0 <= c < |cl| ==> cl[c].vertices != []
  {
    if n == 0 then 0
    else
      var m := MaxSuccessor(cl, n - 1);
      var s := AsUnsigned(cl[n - 1].vertices[|cl[n - 1].vertices| - 1] + 1);
      if m < s then s else m
  }

  /**
   * MaxSuccessor is the least bound of the cliques' successors of last
   * vertices: it bounds every one of them and is one of them (or 0).
   */
  lemma {:induction false} MaxSuccessorIsMaximum(cl: seq<Clique>, n: nat)
    requires n <= |cl|
    requires forall c :: 0 <= c < |cl| ==> cl[c].vertices != []
    ensures forall c :: 0 <= c < n ==>
              AsUnsigned(cl[c].vertices[|cl[c].vertices| - 1] + 1) <= MaxSuccessor(cl, n)
    ensures MaxSuccessor(cl, n) == 0 ||
            exists c :: 0 <= c < n && MaxSuccessor(cl, n) == AsUnsigned(cl[c].vertices[|cl[c].vertices| - 1] + 1)
  {
    if n > 0 {
      MaxSuccessorIsMaximum(cl, n - 1);
    }
  }

  /** In a clique listed in ascending order every vertex is at most the last one. */
  lemma AscendingBelowSuccessor(cl: seq<Clique>, c: nat, t: nat)
    requires c < |cl| && t < |cl[c].vertices|
    requires forall c :: 0 <= c < |cl| ==> cl[c].vertices != [] && Unsigned(cl[c].vertices)
    requires forall a, b :: 0 <= a < b < |cl[c].vertices| ==> cl[c].vertices[a] < cl[c].vertices[b]
    requires forall c :: 0 <= c < |cl| ==> cl[c].vertices[|cl[c].vertices| - 1] + 1 < UintBound
    ensures cl[c].vertices[t] < MaxSuccessor(cl, |cl|)
  {
    MaxSuccessorIsMaximum(cl, |cl|);
  }

  /** The rows j < n whose cell in column i is set, in ascending order. */
  function ColumnRows(m: seq<bool>, cols: nat, i: nat, n: nat): (r: seq<int>)
    requires i < cols && n * cols <= |m|
  {
    if n == 0 then []
    else
      CellBelow(n - 1, i, n, cols);
      ProductPred(n, cols);
      ColumnRows(m, cols, i, n - 1) + (if m[(n - 1) * cols + i] then [n - 1] else [])
  }

  /** Cell (j, i) of a row-major rows-by-cols matrix lies inside it. */
  lemma CellBelow(j: nat, i: nat, rows: nat, cols: nat)
    requires j < rows && i < cols
    ensures j * cols + i < rows * cols
  {
    MulMono(j + 1, rows, cols);
    assert (j + 1) * cols == j * cols + cols;
  }

  /** Dropping one row keeps the product within bounds. */
  lemma ProductPred(n: nat, cols: nat)
    requires n > 0
    ensures (n - 1) * cols + cols == n * cols
  {
  }

  /** Column i lists exactly the rows whose cell is set, strictly increasing. */
  lemma {:induction false} ColumnRowsContents(m: seq<bool>, cols: nat, i: nat, n: nat)
    requires i < cols && n * cols <= |m|
    ensures forall j :: j in ColumnRows(m, cols, i, n) <==> 0 <= j < n && CellSet(m, cols, i, j)
    ensures forall a, b :: 0 <= a < b < |ColumnRows(m, cols, i, n)| ==>
              ColumnRows(m, cols, i, n)[a] < ColumnRows(m, cols, i, n)[b]
  {
    if n > 0 {
      CellBelow(n - 1, i, n, cols);
      ProductPred(n, cols);
      ColumnRowsContents(m, cols, i, n - 1);
      var r, r' := ColumnRows(m, cols, i, n), ColumnRows(m, cols, i, n - 1);
      forall a, b | 0 <= a < b < |r| ensures r[a] < r[b] {
        if b >= |r'| {
          assert r[a] == r'[a] && r'[a] in r';
        }
      }
    }
  }

  /** Cell (j, i) of the row-major matrix m with `cols` columns is set. */
  predicate CellSet(m: seq<bool>, cols: nat, i: nat, j: int)
  {
    0 <= j && j * cols + i < |m| && m[j * cols + i]
  }

  /** The rows of column i holding a 1, pushed in ascending order. */
  method ColumnOf(binaryMatrix: seq<bool>, rows: nat, cols: nat, i: nat) returns (vs: seq<int>)
    requires i < cols && rows * cols <= |binaryMatrix|
    ensures vs == ColumnRows(binaryMatrix, cols, i, rows)
  {
    vs := [];
    var j := 0;
    while j < rows
      invariant 0 <= j <= rows
      invariant vs == ColumnRows(binaryMatrix, cols, i, j)
    {
      CellBelow(j, i, rows, cols);
      ProductPred(j + 1, cols);
      if binaryMatrix[j * cols + i] {
        vs := vs + [j];
      }
      j := j + 1;
    }
  }

  /** Every clique gains one identity row: clique i the row `nv + i`. */
  function Appended(cl: seq<Clique>, nv: nat): (r: seq<Clique>)
    ensures |r| == |cl|
  {
    seq(|cl|, i requires 0 <= i < |cl| => cl[i].(vertices := cl[i].vertices + [AsUnsigned(nv + i)]))
  }

  /** Every clique loses its last row. */
  function RolledBack(cl: seq<Clique>): (r: seq<Clique>)
    requires forall c :: 0 <= c < |cl| ==> cl[c].vertices != []
    ensures |r| == |cl|
  {
    seq(|cl|, i requires 0 <= i < |cl| => cl[i].(vertices := cl[i].vertices[..|cl[i].vertices| - 1]))
  }

  /**
   * Removing the identity rows after appending them restores every clique
   * and the vertex count exactly, unsigned wrap-around included.
   */
  lemma RollbackAfterAppend(cl: seq<Clique>, nv: nat)
    requires nv < UintBound
    ensures forall c :: 0 <= c < |cl| ==> Appended(cl, nv)[c].vertices != []
    ensures RolledBack(Appended(cl, nv)) == cl
    ensures AsUnsigned(AsUnsigned(nv + |cl|) - |cl|) == nv
  {
    var a := Appended(cl, nv);
    forall c | 0 <= c < |cl| ensures RolledBack(a)[c] == cl[c] {
      assert a[c].vertices[..|a[c].vertices| - 1] == cl[c].vertices;
    }
    var s := AsUnsigned(nv + |cl|);
    assert s == nv + |cl| - ((nv + |cl|) / UintBound) * UintBound;
    ModSubtract(nv, |cl|, (nv + |cl|) / UintBound);
  }

  lemma ModSubtract(nv: nat, k: nat, q: int)
    requires nv < UintBound
    ensures (nv + k - q * UintBound - k) % UintBound == nv
  {
    assert nv + k - q * UintBound - k == nv + (-q) * UintBound;
  }

  /**
   * Label comparison of the consecutive-ones test: label l1 is taken to be
   * "greater" unless at some common position it holds a smaller entry. This is
   * not lexicographic order: [5, 1] is not greater than [4, 3], and any label
   * is greater than its own extensions.
   */
  predicate LabelAtLeast(l1: seq<int>, l2: seq<int>)
  {
    forall i :: 0 <= i < |l1| && i < |l2| ==> l1[i] >= l2[i]
  }

  method IsLabelGreaterThan(label1: seq<int>, label2: seq<int>) returns (r: bool)
    ensures r <==> LabelAtLeast(label1, label2)
    ensures label1 == label2 ==> r
    ensures label1 == [] ==> r
  {
    var i := 0;
    while i < |label1|
      invariant 0 <= i <= |label1|
      invariant forall t :: 0 <= t < i && t < |label2| ==> label1[t] >= label2[t]
    {
      if |label2| <= i {
        return true;
      }
      if label1[i] < label2[i] {
        return false;
      }
      i := i + 1;
    }
    return true;
  }

  /**
   * The column the search picks among the first n: the last unnumbered one
   * whose label is "greater" than that of the unnumbered column picked
   * before it (the first unnumbered one compares with itself), or -1.
   */
  function Candidate(cl: seq<Clique>, n: nat): (r: int)
    requires n <= |cl|
    ensures r == -1 || (0 <= r < n && cl[r].number == -1)
  {
    if n == 0 then -1
    else
      var prev := Candidate(cl, n - 1);
      if cl[n - 1].number != -1 then prev
      else if prev == -1 || LabelAtLeast(cl[n - 1].lexLabel, cl[prev].lexLabel) then n - 1
      else prev
  }

  /** A candidate exists exactly when some column is still unnumbered. */
  lemma {:induction false} CandidateExists(cl: seq<Clique>, n: nat)
    requires n <= |cl|
    ensures Candidate(cl, n) == -1 <==> forall c :: 0 <= c < n ==> cl[c].number != -1
  {
    if n > 0 {
      CandidateExists(cl, n - 1);
    }
  }

  method PickCandidate(cl: seq<Clique>) returns (cand: int)
    ensures cand == Candidate(cl, |cl|)
  {
    cand := -1;
    var ind := 0;
    while ind < |cl|
      invariant 0 <= ind <= |cl|
      invariant cand == Candidate(cl, ind)
    {
      if cl[ind].number != -1 {
        ind := ind + 1;
        continue;
      }
      var greater := IsLabelGreaterThan(cl[ind].lexLabel, if cand == -1 then cl[ind].lexLabel else cl[cand].lexLabel);
      if greater {
        cand := ind;
      }
      ind := ind + 1;
    }
  }

  /** Number of columns already numbered. */
  function NumberedCount(cl: seq<Clique>): (r: nat)
    ensures r <= |cl|
  {
    if cl == [] then 0
    else NumberedCount(cl[..|cl| - 1]) + (if cl[|cl| - 1].number != -1 then 1 else 0)
  }

  /** When fewer than all are numbered, some column is unnumbered; when all are, none is. */
  lemma {:induction false} NumberedCountAll(cl: seq<Clique>)
    ensures NumberedCount(cl) == |cl| <==> forall c :: 0 <= c < |cl| ==> cl[c].number != -1
  {
    if cl != [] {
      var init := cl[..|cl| - 1];
      NumberedCountAll(init);
      assert forall c :: 0 <= c < |init| ==> init[c] == cl[c];
    }
  }

  /** Numbering one more unnumbered column raises the count by one. */
  lemma {:induction false} NumberedCountStep(cl: seq<Clique>, c: nat, j: int)
    requires c < |cl| && cl[c].number == -1 && j != -1
    ensures NumberedCount(cl[c := cl[c].(number := j)]) == NumberedCount(cl) + 1
  {
    var cl' := cl[c := cl[c].(number := j)];
    if c < |cl| - 1 {
      assert cl'[..|cl'| - 1] == cl[..|cl| - 1][c := cl[c].(number := j)];
      NumberedCountStep(cl[..|cl| - 1], c, j);
    } else {
      assert cl'[..|cl'| - 1] == cl[..|cl| - 1];
    }
  }

  /** Numbers of numbered columns lie in 1..top and no two columns share one. */
  predicate NumbersDistinct(cl: seq<Clique>, top: int)
  {
    && (forall c :: 0 <= c < |cl| ==> cl[c].number == -1 || 1 <= cl[c].number <= top)
    && (forall c, d :: 0 <= c < |cl| && 0 <= d < |cl| && c != d && cl[c].number != -1 ==>
          cl[c].number != cl[d].number)
  }

  /** Y records, for each numbered vertex, the number of the column that numbered it. */
  predicate YBounded(Y: seq<int>, j: int)
  {
    forall x :: 0 <= x < |Y| ==> Y[x] == -1 || 1 <= Y[x] <= j
  }

  /** last(C) is -1 or a numbered vertex. */
  predicate LastBounded(last: seq<int>, Y: seq<int>, j: int)
  {
    forall c :: 0 <= c < |last| ==> last[c] == -1 || (0 <= last[c] < |Y| && 1 <= Y[last[c]] <= j)
  }

  /** Number of entries of vs that `numbered` does not match. */
  function UnnumberedCount(vs: seq<int>, numbered: seq<int>): nat
  {
    if vs == [] then 0
    else UnnumberedCount(vs[..|vs| - 1], numbered) + (if IsNumbered(vs[|vs| - 1], numbered) then 0 else 1)
  }

  /** Numbering one more of the clique's unnumbered vertices lowers the count. */
  lemma {:induction false} UnnumberedCountDrops(vs: seq<int>, numbered: seq<int>, k: nat)
    requires k < |vs| && 0 <= vs[k] < UintBound && !IsNumbered(vs[k], numbered)
    ensures UnnumberedCount(vs, numbered + [AsSigned(vs[k])]) < UnnumberedCount(vs, numbered)
  {
    ReportedBecomesNumbered(vs[k], numbered);
    UnnumberedCountMono(vs[..|vs| - 1], numbered, AsSigned(vs[k]));
    if k < |vs| - 1 {
      assert vs[..|vs| - 1][k] == vs[k];
      UnnumberedCountDrops(vs[..|vs| - 1], numbered, k);
    }
  }

  lemma {:induction false} UnnumberedCountMono(vs: seq<int>, numbered: seq<int>, x: int)
    ensures UnnumberedCount(vs, numbered + [x]) <= UnnumberedCount(vs, numbered)
  {
    if vs != [] {
      UnnumberedCountMono(vs[..|vs| - 1], numbered, x);
      if IsNumbered(vs[|vs| - 1], numbered) {
        var j :| 0 <= j < |numbered| && AsUnsigned(numbered[j]) == vs[|vs| - 1];
        assert (numbered + [x])[j] == numbered[j];
      }
    }
  }

  /**
   * One vertex x just numbered: every unnumbered column containing it gets
   * the label entry i and remembers x as its last numbered vertex.
   */
  method LabelHolders(cl: seq<Clique>, last: seq<int>, x: int, i: nat) returns (cl': seq<Clique>, last': seq<int>)
    requires |last| == |cl| && i < UintBound
    ensures |cl'| == |cl| && |last'| == |last|
    ensures SameButLabels(cl, cl') && forall c :: 0 <= c < |cl| ==> last'[c] == last[c] || last'[c] == x
    ensures forall c :: 0 <= c < |cl| ==>
              if cl[c].number == -1 && x in cl[c].vertices
              then cl'[c] == cl[c].(lexLabel := cl[c].lexLabel + [AsSigned(i)]) && last'[c] == x
              else cl'[c] == cl[c] && last'[c] == last[c]
  {
    cl', last' := cl, last;
    var index := 0;
    while index < |cl|
      invariant 0 <= index <= |cl|
      invariant |cl'| == |cl| && |last'| == |last|
      invariant forall c :: 0 <= c < |cl| ==>
                  if c < index && cl[c].number == -1 && x in cl[c].vertices
                  then cl'[c] == cl[c].(lexLabel := cl[c].lexLabel + [AsSigned(i)]) && last'[c] == x
                  else cl'[c] == cl[c] && last'[c] == last[c]
    {
      if cl'[index].number != -1 {
        index := index + 1;
        continue;
      }
      var holds := ContainsXasOneEntry(cl'[index], x);
      if holds {
        cl' := cl'[index := cl'[index].(lexLabel := cl'[index].lexLabel + [AsSigned(i)])];
        last' := last'[index := x];
      }
      index := index + 1;
    }
  }

  /**
   * Numbers, one at a time, the vertices of column `cand` that are not yet
   * numbered: each gets Y(x) = j, labels the unnumbered columns holding it
   * with the running counter i, and i counts down (as an unsigned value).
   */
  method NumberVertices(cl: seq<Clique>, cand: nat, j: int, numbered: seq<int>, Y: seq<int>, last: seq<int>, i: nat)
    returns (cl': seq<Clique>, numbered': seq<int>, Y': seq<int>, last': seq<int>, i': nat)
    requires cand < |cl| && cl[cand].number != -1 && j >= 1
    requires VerticesBelow(cl, |Y|) && |Y| <= UintBound / 2
    requires YBounded(Y, j) && |last| == |cl| && LastBounded(last, Y, j)
    requires i < UintBound
    ensures SameButLabels(cl, cl')
    ensures |Y'| == |Y| && YBounded(Y', j) && |last'| == |cl| && LastBounded(last', Y', j)
    ensures i' < UintBound
    ensures forall t :: 0 <= t < |cl[cand].vertices| ==> IsNumbered(cl[cand].vertices[t], numbered')
  {
    cl', numbered', Y', last', i' := cl, numbered, Y, last, i;
    ghost var V := cl[cand].vertices;
    assert Unsigned(V);
    var found, x := ContainsUnnumberedOneEntry(cl'[cand], numbered', -1);
    while found
      invariant SameButLabels(cl, cl') && cl'[cand].vertices == V
      invariant |Y'| == |Y| && YBounded(Y', j) && |last'| == |cl| && LastBounded(last', Y', j)
      invariant i' < UintBound
      invariant found <==> exists k :: 0 <= k < |V| && !IsNumbered(V[k], numbered')
      invariant found ==> exists k :: 0 <= k < |V| && !IsNumbered(V[k], numbered') && x == AsSigned(V[k])
      decreases UnnumberedCount(V, numbered')
    {
      ghost var k :| 0 <= k < |V| && !IsNumbered(V[k], numbered') && x == AsSigned(V[k]);
      UnnumberedCountDrops(V, numbered', k);
      assert 0 <= V[k] < |Y|;
      ghost var prev := cl';
      cl', numbered', Y', last', i' := NumberVertex(cl', numbered', Y', last', i', x, j);
      SameButLabelsTrans(cl, prev, cl');
      found, x := ContainsUnnumberedOneEntry(cl'[cand], numbered', x);
    }
  }

  /** Numbers vertex x: records it, sets Y(x) = j, labels its columns, and counts i down. */
  method NumberVertex(cl: seq<Clique>, numbered: seq<int>, Y: seq<int>, last: seq<int>, i: nat, x: int, j: int)
    returns (cl': seq<Clique>, numbered': seq<int>, Y': seq<int>, last': seq<int>, i': nat)
    requires 0 <= x < |Y| && j >= 1 && |last| == |cl| && i < UintBound
    requires YBounded(Y, j) && LastBounded(last, Y, j)
    ensures numbered' == numbered + [x] && |Y'| == |Y| && YBounded(Y', j)
    ensures |last'| == |cl| && LastBounded(last', Y', j)
    ensures SameButLabels(cl, cl') && i' < UintBound
  {
    numbered' := numbered + [x];
    Y' := Y[x := j];
    cl', last' := LabelHolders(cl, last, x, i);
    i' := AsUnsigned(i - 1);
  }

  lemma SameButLabelsTrans(a: seq<Clique>, b: seq<Clique>, c: seq<Clique>)
    requires SameButLabels(a, b) && SameButLabels(b, c)
    ensures SameButLabels(a, c)
  {
  }

  /**
   * Phase one as a state: ids are indices, alpha lists the columns in the
   * order they were numbered, and the numbers are alpha's inverse.
   */
  predicate NumberedByAlpha(cl: seq<Clique>, alpha: seq<int>, top: int)
  {
    && |alpha| == |cl| + 1 && 0 <= top <= |cl|
    && (forall t :: 1 <= t <= top ==> 0 <= alpha[t] < |cl| && cl[alpha[t]].number == t)
    && (forall c :: 0 <= c < |cl| ==> cl[c].number == -1 || (1 <= cl[c].number <= top && alpha[cl[c].number] == c))
  }

  /** With alpha as inverse, the numbered columns carry distinct numbers. */
  lemma NumberedByAlphaDistinct(cl: seq<Clique>, alpha: seq<int>, top: int)
    requires NumberedByAlpha(cl, alpha, top)
    ensures NumbersDistinct(cl, top)
  {
  }

  class SparseMatrix {
    var sparseCliques: seq<Clique>
    var numofCliques: nat
    var numofVertices: nat

    /** Sizes fit the source's unsigned fields, and every vertex is unsigned. */
    ghost predicate Valid()
      reads this
    {
      && numofCliques == |sparseCliques| && numofCliques < UintBound && numofVertices < UintBound
      && forall c :: 0 <= c < |sparseCliques| ==> Unsigned(sparseCliques[c].vertices)
    }

    /**
     * Builds the matrix from a list of cliques, each non-empty; the vertex
     * count is one past the largest last vertex (the source assumes every
     * clique lists its vertices in ascending order).
     */
    constructor FromCliques(cliques: seq<Clique>)
      requires |cliques| < UintBound
      requires forall c :: 0 <= c < |cliques| ==> cliques[c].vertices != [] && Unsigned(cliques[c].vertices)
      ensures Valid()
      ensures sparseCliques == cliques && numofCliques == |cliques|
      ensures numofVertices == MaxSuccessor(cliques, |cliques|)
    {
      numofCliques := |cliques|;
      var nv := 0;
      var i := 0;
      while i < |cliques|
        invariant 0 <= i <= |cliques|
        invariant nv == MaxSuccessor(cliques, i) && nv < UintBound
      {
        var back := cliques[i].vertices[|cliques[i].vertices| - 1];
        if nv < AsUnsigned(back + 1) {
          nv := AsUnsigned(back + 1);
        }
        i := i + 1;
      }
      numofVertices := nv;
      sparseCliques := cliques;
    }

    /**
     * Builds the matrix from a row-major rows-by-cols boolean array: clique i
     * lists, in ascending order, the rows j whose cell (j, i) is set.
     */
    constructor FromMatrix(binaryMatrix: seq<bool>, rows: nat, cols: nat)
      requires rows < UintBound / 2 && cols < UintBound / 2
      requires rows * cols <= |binaryMatrix|
      ensures Valid()
      ensures numofCliques == cols && numofVertices == rows && |sparseCliques| == cols
      ensures forall i :: 0 <= i < cols ==>
                sparseCliques[i] == EmptyClique().(vertices := ColumnRows(binaryMatrix, cols, i, rows))
      ensures VerticesBelow(sparseCliques, rows)
    {
      numofCliques := cols;
      numofVertices := rows;
      var cl := seq(cols, _ => EmptyClique());
      var i := 0;
      while i < cols
        invariant 0 <= i <= cols && |cl| == cols
        invariant forall c :: 0 <= c < cols ==>
                    cl[c] == EmptyClique().(vertices := if c < i then ColumnRows(binaryMatrix, cols, c, rows) else [])
      {
        var vs := ColumnOf(binaryMatrix, rows, cols, i);
        cl := cl[i := cl[i].(vertices := vs)];
        i := i + 1;
      }
      sparseCliques := cl;
      forall c | 0 <= c < cols ensures Unsigned(cl[c].vertices) && forall t :: 0 <= t < |cl[c].vertices| ==> cl[c].vertices[t] < rows {
        ColumnRowsContents(binaryMatrix, cols, c, rows);
        forall t | 0 <= t < |cl[c].vertices| ensures 0 <= cl[c].vertices[t] < rows {
          assert cl[c].vertices[t] in ColumnRows(binaryMatrix, cols, c, rows);
        }
      }
    }

    /** Appends the identity below the matrix: clique i gains the row numofVertices + i. */
    method AppendIdentityMatrix()
      requires Valid()
      modifies this
      ensures Valid()
      ensures sparseCliques == Appended(old(sparseCliques), old(numofVertices))
      ensures numofVertices == AsUnsigned(old(numofVertices) + |old(sparseCliques)|)
      ensures numofCliques == old(numofCliques)
    {
      var cl := sparseCliques;
      var i := 0;
      while i < |cl|
        invariant 0 <= i <= |cl| && |cl| == |sparseCliques|
        invariant forall c :: 0 <= c < |cl| ==>
                    cl[c] == if c < i then Appended(sparseCliques, numofVertices)[c] else sparseCliques[c]
      {
        cl := cl[i := cl[i].(vertices := cl[i].vertices + [AsUnsigned(numofVertices + i)])];
        i := i + 1;
      }
      sparseCliques := cl;
      numofVertices := AsUnsigned(numofVertices + |cl|);
    }

    /** Removes the last row of every clique; only meaningful after AppendIdentityMatrix. */
    method RollbackOriginalMatrix()
      requires Valid()
      requires forall c :: 0 <= c < |sparseCliques| ==> sparseCliques[c].vertices != []
      modifies this
      ensures Valid()
      ensures sparseCliques == RolledBack(old(sparseCliques))
      ensures numofVertices == AsUnsigned(old(numofVertices) - |old(sparseCliques)|)
      ensures numofCliques == old(numofCliques)
    {
      var cl := sparseCliques;
      var i := 0;
      while i < |cl|
        invariant 0 <= i <= |cl| && |cl| == |sparseCliques|
        invariant forall c :: 0 <= c < |cl| ==>
                    cl[c] == if c < i then RolledBack(sparseCliques)[c] else sparseCliques[c]
      {
        cl := cl[i := cl[i].(vertices := cl[i].vertices[..|cl[i].vertices| - 1])];
        i := i + 1;
      }
      sparseCliques := cl;
      numofVertices := AsUnsigned(numofVertices - |cl|);
    }

    /**
     * Phase one of the consecutive-ones test: resets ids, labels and
     * numbers, then numbers the columns 1..k in lexicographic breadth-first
     * order, recording each column's tree parent Y(last(C)).
     */
    method NumberCliques() returns (alpha: seq<int>, treeParentArray: seq<int>)
      requires Valid() && VerticesBelow(sparseCliques, numofVertices) && numofVertices <= UintBound / 2
      modifies this
      ensures Valid() && numofCliques == old(numofCliques) && numofVertices == old(numofVertices)
      ensures |sparseCliques| == |old(sparseCliques)|
      ensures forall c :: 0 <= c < |sparseCliques| ==> sparseCliques[c].vertices == old(sparseCliques[c].vertices)
      ensures IdsAreIndices(sparseCliques)
      ensures NumberedByAlpha(sparseCliques, alpha, numofCliques)
      ensures forall c :: 0 <= c < |sparseCliques| ==> 1 <= sparseCliques[c].number <= numofCliques
      ensures NumbersDistinct(sparseCliques, numofCliques)
      ensures |treeParentArray| == numofCliques && ParentsBounded(treeParentArray, numofCliques)
    {
      var cl;
      cl, alpha, treeParentArray := NumberColumns(sparseCliques, numofVertices);
      forall c | 0 <= c < |cl| ensures Unsigned(cl[c].vertices) {
        assert cl[c].vertices == sparseCliques[c].vertices;
      }
      sparseCliques := cl;
    }

    /**
     * The consecutive-ones test: appends the identity matrix, numbers the
     * columns (phase one), refines the ordered list of column classes (phase
     * two) and rolls the matrix back before answering, on every path.
     * A yes comes with a refinement into singleton classes of the appended
     * matrix cl1, a no with a vertex of cl1 whose pivot was rejected.
     */
    method HasConsecutiveOnesProperty() returns (r: bool, ghost cl1: seq<Clique>, ghost L: seq<seq<int>>)
      requires Valid() && VerticesBelow(sparseCliques, numofVertices)
      requires numofVertices + numofCliques <= UintBound / 2
      modifies this
      ensures Valid() && numofCliques == old(numofCliques) && numofVertices == old(numofVertices)
      ensures |sparseCliques| == |old(sparseCliques)|
      ensures forall c :: 0 <= c < |sparseCliques| ==> sparseCliques[c].vertices == old(sparseCliques[c].vertices)
      ensures IdsAreIndices(sparseCliques) && NumbersDistinct(sparseCliques, numofCliques)
      ensures forall c :: 0 <= c < |sparseCliques| ==> 1 <= sparseCliques[c].number <= numofCliques
      ensures |cl1| == |old(sparseCliques)|
      ensures forall c :: 0 <= c < |cl1| ==> cl1[c].vertices == Appended(old(sparseCliques), old(numofVertices))[c].vertices
      ensures r && |cl1| > 0 ==> Partition(L, |cl1|) && |L| == |cl1| && forall c :: 0 <= c < |L| ==> |L[c]| == 1
      ensures !r ==> ClassesBelow(L, |cl1|)
                     && exists x :: IsVertex(cl1, x, old(numofVertices) + |cl1|) && !PivotAccepted(cl1, L, x)
    {
      ghost var cl0, nv0 := sparseCliques, numofVertices;
      AppendIdentityMatrix();
      AppendedBelow(cl0, nv0);
      var alpha, treeParentArray := NumberCliques();
      cl1 := sparseCliques;
      assert VerticesBelow(cl1, numofVertices) by {
        assert forall c :: 0 <= c < |cl1| ==> cl1[c].vertices == Appended(cl0, nv0)[c].vertices;
      }
      var ok;
      ok, L := RefineClasses(sparseCliques, numofVertices, treeParentArray);
      RollbackOriginalMatrix();
      RollbackAfterAppend(cl0, nv0);
      RollbackRestores(cl0, nv0, cl1);
      r := ok;
    }
  }

  /** After the identity is appended, clique i gains vertex nv + i, and every vertex stays below nv + k. */
  lemma AppendedBelow(cl: seq<Clique>, nv: nat)
    requires VerticesBelow(cl, nv) && nv + |cl| < UintBound
    ensures VerticesBelow(Appended(cl, nv), nv + |cl|)
    ensures forall c :: 0 <= c < |cl| ==> Appended(cl, nv)[c].vertices != []
  {
    var a := Appended(cl, nv);
    forall c, t | 0 <= c < |a| && 0 <= t < |a[c].vertices| ensures 0 <= a[c].vertices[t] < nv + |cl| {
      if t < |cl[c].vertices| {
        assert a[c].vertices[t] == cl[c].vertices[t];
      }
    }
  }

  /** Rolling back a renumbered appended matrix restores every clique's vertices. */
  lemma RollbackRestores(cl0: seq<Clique>, nv: nat, cl1: seq<Clique>)
    requires nv < UintBound && |cl1| == |cl0|
    requires forall c :: 0 <= c < |cl1| ==> cl1[c].vertices == Appended(cl0, nv)[c].vertices
    ensures forall c :: 0 <= c < |cl1| ==> cl1[c].vertices != []
    ensures forall c :: 0 <= c < |cl0| ==> RolledBack(cl1)[c].vertices == cl0[c].vertices
  {
    RollbackAfterAppend(cl0, nv);
    forall c | 0 <= c < |cl0| ensures RolledBack(cl1)[c].vertices == cl0[c].vertices {
      assert RolledBack(cl1)[c].vertices == RolledBack(Appended(cl0, nv))[c].vertices;
    }
  }

  /** Phase one on the clique vector as a value (see SparseMatrix.NumberCliques). */
  method NumberColumns(cl0: seq<Clique>, numofVertices: nat) returns (cl: seq<Clique>, alpha: seq<int>, treeParentArray: seq<int>)
    requires |cl0| < UintBound && VerticesBelow(cl0, numofVertices) && numofVertices <= UintBound / 2
    ensures |cl| == |cl0| && forall c :: 0 <= c < |cl| ==> cl[c].vertices == cl0[c].vertices
    ensures IdsAreIndices(cl)
    ensures NumberedByAlpha(cl, alpha, |cl|)
    ensures forall c :: 0 <= c < |cl| ==> 1 <= cl[c].number <= |cl|
    ensures NumbersDistinct(cl, |cl|)
    ensures |treeParentArray| == |cl| && ParentsBounded(treeParentArray, |cl|)
  {
    var k := |cl0|;
    ghost var V := seq(k, d requires 0 <= d < k => cl0[d].vertices);
    cl := ResetCliques(cl0);
    var i: nat := numofVertices;
    var Y := seq(numofVertices, _ => -1);
    var last := seq(k, _ => -1);
    treeParentArray := seq(k, _ => -1);
    alpha := seq(k + 1, _ => -1);
    var numbered: seq<int> := [];
    PhaseOneStart(cl0, cl, V, numofVertices);
    var j := 1;
    while j < k + 1
      invariant 1 <= j <= k + 1
      invariant PhaseOne(cl, V, alpha, Y, last, treeParentArray, j)
      invariant |Y| == numofVertices && i < UintBound
    {
      cl, alpha, treeParentArray, Y, last, numbered, i := NumberNextClique(cl, V, j, alpha, treeParentArray, Y, last, numbered, i);
      j := j + 1;
    }
    PhaseOneDone(cl0, cl, V, alpha, Y, last, treeParentArray);
  }

  /** Freshly reset columns satisfy phase one's invariant for the first number. */
  lemma PhaseOneStart(cl0: seq<Clique>, cl: seq<Clique>, V: seq<seq<int>>, n: nat)
    requires VerticesBelow(cl0, n) && n <= UintBound / 2
    requires V == seq(|cl0|, d requires 0 <= d < |cl0| => cl0[d].vertices)
    requires |cl| == |cl0| && forall d :: 0 <= d < |cl| ==> cl[d] == Clique(cl0[d].vertices, d, -1, [])
    ensures PhaseOne(cl, V, seq(|cl| + 1, _ => -1), seq(n, _ => -1), seq(|cl|, _ => -1), seq(|cl|, _ => -1), 1)
  {
    NoneNumbered(cl);
  }

  /** When all k columns are numbered, phase one's promises hold. */
  lemma PhaseOneDone(cl0: seq<Clique>, cl: seq<Clique>, V: seq<seq<int>>, alpha: seq<int>, Y: seq<int>, last: seq<int>, tp: seq<int>)
    requires |V| == |cl0| && forall d :: 0 <= d < |cl0| ==> V[d] == cl0[d].vertices
    requires PhaseOne(cl, V, alpha, Y, last, tp, |cl| + 1)
    ensures |cl| == |cl0| && forall c :: 0 <= c < |cl| ==> cl[c].vertices == cl0[c].vertices
    ensures IdsAreIndices(cl)
    ensures NumberedByAlpha(cl, alpha, |cl|)
    ensures forall c :: 0 <= c < |cl| ==> 1 <= cl[c].number <= |cl|
    ensures NumbersDistinct(cl, |cl|)
    ensures |tp| == |cl| && ParentsBounded(tp, |cl|)
  {
    NumberedCountAll(cl);
    NumberedByAlphaDistinct(cl, alpha, |cl|);
  }

  /** Gives every clique its index as id, an empty label and no number. */
  method ResetCliques(cl0: seq<Clique>) returns (cl: seq<Clique>)
    ensures |cl| == |cl0|
    ensures forall d :: 0 <= d < |cl| ==> cl[d] == Clique(cl0[d].vertices, d, -1, [])
  {
    cl := cl0;
    var c := 0;
    while c < |cl0|
      invariant 0 <= c <= |cl0| && |cl| == |cl0|
      invariant forall d :: 0 <= d < |cl| ==> cl[d] == if d < c then Clique(cl0[d].vertices, d, -1, []) else cl0[d]
    {
      cl := cl[c := cl[c].(id := c, lexLabel := [], number := -1)];
      c := c + 1;
    }
  }

  /**
   * The state of phase one before column number j is handed out: vertices
   * and ids fixed, j - 1 columns numbered through alpha, and Y, last and the
   * tree parents within bounds.
   */
  predicate PhaseOne(cl: seq<Clique>, V: seq<seq<int>>, alpha: seq<int>, Y: seq<int>, last: seq<int>, tp: seq<int>, j: int)
  {
    && Fixed(cl, V, |Y|)
    && NumberedCount(cl) == j - 1 && NumberedByAlpha(cl, alpha, j - 1)
    && YBounded(Y, j - 1) && |last| == |cl| && LastBounded(last, Y, j - 1)
    && |tp| == |cl| && ParentsBounded(tp, |cl|)
  }

  /** Vertices and ids as phase one found and set them, every vertex below n. */
  predicate Fixed(cl: seq<Clique>, V: seq<seq<int>>, n: int)
  {
    && |cl| == |V| && (forall d :: 0 <= d < |cl| ==> cl[d].vertices == V[d] && cl[d].id == d)
    && VerticesBelow(cl, n) && n <= UintBound / 2
  }

  lemma FixedKept(cl: seq<Clique>, cl': seq<Clique>, V: seq<seq<int>>, n: int)
    requires Fixed(cl, V, n) && SameButLabels(cl, cl')
    ensures Fixed(cl', V, n)
  {
  }

  lemma FixedNumbered(cl: seq<Clique>, V: seq<seq<int>>, n: int, cand: nat, j: int)
    requires Fixed(cl, V, n) && cand < |cl|
    ensures Fixed(cl[cand := cl[cand].(number := j)], V, n)
  {
    var cl1 := cl[cand := cl[cand].(number := j)];
    assert forall d :: 0 <= d < |cl| ==> cl1[d].vertices == cl[d].vertices;
  }

  /**
   * One round of phase one: the picked column gets number j, its tree parent
   * Y(last(C)) is recorded, and its vertices are numbered.
   */
  method NumberNextClique(cl: seq<Clique>, ghost V: seq<seq<int>>, j: int, alpha: seq<int>, tp: seq<int>,
                          Y: seq<int>, last: seq<int>, numbered: seq<int>, i: nat)
    returns (cl': seq<Clique>, alpha': seq<int>, tp': seq<int>, Y': seq<int>, last': seq<int>, numbered': seq<int>, i': nat)
    requires 1 <= j <= |cl| && PhaseOne(cl, V, alpha, Y, last, tp, j) && i < UintBound
    ensures PhaseOne(cl', V, alpha', Y', last', tp', j + 1) && |Y'| == |Y| && i' < UintBound
  {
    var cand := PickCandidate(cl);
    CandidateFound(cl, j);
    cl' := cl[cand := cl[cand].(number := j)];
    alpha' := alpha[j := cand];
    tp' := tp;
    if last[cand] != -1 {
      tp' := tp[cand := Y[last[cand]]];
    }
    NumberingStep(cl, alpha, cand, j);
    var cl1 := cl';
    FixedNumbered(cl, V, |Y|, cand, j);
    cl', numbered', Y', last', i' := NumberVertices(cl', cand, j, numbered, Y, last, i);
    LabelsOnlyKeep(cl1, cl', alpha', j);
    FixedKept(cl1, cl', V, |Y|);
  }

  /** Before column j is numbered, fewer than all are, so the search finds an unnumbered one. */
  lemma CandidateFound(cl: seq<Clique>, j: int)
    requires 1 <= j <= |cl| && NumberedCount(cl) == j - 1
    ensures 0 <= Candidate(cl, |cl|) < |cl| && cl[Candidate(cl, |cl|)].number == -1
  {
    NumberedCountAll(cl);
    CandidateExists(cl, |cl|);
  }

  /** Handing number j to an unnumbered column extends the numbering by one. */
  lemma NumberingStep(cl: seq<Clique>, alpha: seq<int>, cand: nat, j: int)
    requires 1 <= j <= |cl| && cand < |cl| && cl[cand].number == -1
    requires NumberedCount(cl) == j - 1 && NumberedByAlpha(cl, alpha, j - 1)
    ensures NumberedCount(cl[cand := cl[cand].(number := j)]) == j
    ensures NumberedByAlpha(cl[cand := cl[cand].(number := j)], alpha[j := cand], j)
  {
    NumberedCountStep(cl, cand, j);
  }

  /** Changing only labels keeps the count and the numbering. */
  lemma LabelsOnlyKeep(cl: seq<Clique>, cl': seq<Clique>, alpha: seq<int>, j: int)
    requires SameButLabels(cl, cl')
    ensures NumberedCount(cl') == NumberedCount(cl)
    ensures NumberedByAlpha(cl, alpha, j) ==> NumberedByAlpha(cl', alpha, j)
  {
    SameNumbersSameCount(cl, cl');
  }

  lemma {:induction false} SameNumbersSameCount(cl: seq<Clique>, cl': seq<Clique>)
    requires |cl'| == |cl| && forall c :: 0 <= c < |cl| ==> cl'[c].number == cl[c].number
    ensures NumberedCount(cl') == NumberedCount(cl)
  {
    if cl != [] {
      SameNumbersSameCount(cl[..|cl| - 1], cl'[..|cl'| - 1]);
    }
  }

  /** Freshly reset columns: none numbered. */
  lemma {:induction false} NoneNumbered(cl: seq<Clique>)
    requires forall d :: 0 <= d < |cl| ==> cl[d].number == -1
    ensures NumberedCount(cl) == 0
  {
    if cl != [] {
      NoneNumbered(cl[..|cl| - 1]);
    }
  }
}
