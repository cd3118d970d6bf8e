/**
 * Read-only matrix helpers of the older polynomial-time solver.
 *
 * A matrix is a sequence of rows, one row per species and one column per
 * character.  Its entries are 0 (the species lacks the character), 1 (the
 * species has it: a black edge) and 2 (a red edge to an active character).
 * Each helper scans the matrix with a loop; its contract ties the answer to
 * a predicate over the whole matrix, and the lemmas at the end relate the
 * predicates to each other.
 */
module PolyMatrix {
  import opened Seqs

  /** Every row of m has exactly cols entries. */
  predicate Rect(m: seq<seq<int>>, cols: nat)
  {
    forall i :: 0 <= i < |m| ==> |m[i]| == cols
  }

  /** Every entry of s is 0 or 1. */
  predicate Binary(s: seq<int>)
  {
    forall i :: 0 <= i < |s| ==> s[i] == 0 || s[i] == 1
  }

  /** Column c of m, top to bottom. */
  function Column(m: seq<seq<int>>, cols: nat, c: nat): (r: seq<int>)
    requires Rect(m, cols) && c < cols
    ensures |r| == |m|
    ensures forall i :: 0 <= i < |m| ==> r[i] == m[i][c]
  {
    seq(|m|, i requires 0 <= i < |m| => m[i][c])
  }

  //---------------------------------------------------------------------------
  // Patterns between two columns

  /** Some row shows x in column c1 and y in column c2. */
  ghost predicate Shows(m: seq<seq<int>>, cols: nat, c1: nat, c2: nat, x: int, y: int)
    requires Rect(m, cols) && c1 < cols && c2 < cols
  {
    exists i :: 0 <= i < |m| && m[i][c1] == x && m[i][c2] == y
  }

  /**
   * Columns c1 and c2 overlap: the rows show (0,1), (1,0) and (1,1).  On a
   * binary matrix this is the forbidden submatrix of a perfect phylogeny.
   */
  ghost predicate Overlapping(m: seq<seq<int>>, cols: nat, c1: nat, c2: nat)
    requires Rect(m, cols) && c1 < cols && c2 < cols
  {
    Shows(m, cols, c1, c2, 0, 1) && Shows(m, cols, c1, c2, 1, 0) && Shows(m, cols, c1, c2, 1, 1)
  }

  /** Columns c1 and c2 form a red sigma: the rows show (0,2), (2,0) and (2,2). */
  ghost predicate RedSigma(m: seq<seq<int>>, cols: nat, c1: nat, c2: nat)
    requires Rect(m, cols) && c1 < cols && c2 < cols
  {
    Shows(m, cols, c1, c2, 0, 2) && Shows(m, cols, c1, c2, 2, 0) && Shows(m, cols, c1, c2, 2, 2)
  }

  /**
   * One pass over the rows raising a flag for each of three patterns; the
   * answer is whether all three flags are raised.
   */
  method ThreePatterns(m: seq<seq<int>>, cols: nat, c1: nat, c2: nat,
                       x1: int, y1: int, x2: int, y2: int, x3: int, y3: int)
    returns (all: bool)
    requires Rect(m, cols) && c1 < cols && c2 < cols
    ensures all <==> Shows(m, cols, c1, c2, x1, y1) && Shows(m, cols, c1, c2, x2, y2)
                     && Shows(m, cols, c1, c2, x3, y3)
  {
    var flag1, flag2, flag3 := false, false, false;
    var i := 0;
    while i < |m|
      invariant i <= |m|
      invariant flag1 <==> Shows(m[..i], cols, c1, c2, x1, y1)
      invariant flag2 <==> Shows(m[..i], cols, c1, c2, x2, y2)
      invariant flag3 <==> Shows(m[..i], cols, c1, c2, x3, y3)
    {
      ShowsSnoc(m, cols, c1, c2, i, x1, y1);
      ShowsSnoc(m, cols, c1, c2, i, x2, y2);
      ShowsSnoc(m, cols, c1, c2, i, x3, y3);
      if m[i][c1] == x1 && m[i][c2] == y1 {
        flag1 := true;
      }
      if m[i][c1] == x2 && m[i][c2] == y2 {
        flag2 := true;
      }
      if m[i][c1] == x3 && m[i][c2] == y3 {
        flag3 := true;
      }
      i := i + 1;
    }
    assert m[..i] == m;
    all := flag1 && flag2 && flag3;
  }

  lemma ShowsSnoc(m: seq<seq<int>>, cols: nat, c1: nat, c2: nat, i: nat, x: int, y: int)
    requires Rect(m, cols) && c1 < cols && c2 < cols && i < |m|
    ensures Shows(m[..i + 1], cols, c1, c2, x, y)
            <==> Shows(m[..i], cols, c1, c2, x, y) || (m[i][c1] == x && m[i][c2] == y)
  {
    var p, q := m[..i], m[..i + 1];
    if Shows(q, cols, c1, c2, x, y) && !(m[i][c1] == x && m[i][c2] == y) {
      var k :| 0 <= k < |q| && q[k][c1] == x && q[k][c2] == y;
      assert k < i && p[k] == q[k];
    }
    if Shows(p, cols, c1, c2, x, y) {
      var k :| 0 <= k < |p| && p[k][c1] == x && p[k][c2] == y;
      assert q[k] == p[k];
    }
    if m[i][c1] == x && m[i][c2] == y {
      assert q[i] == m[i];
    }
  }

  /**
   * sottomatriceProibita: 1 exactly when columns c1 and c2 of the extended
   * matrix hold the forbidden submatrix, 0 otherwise.
   */
  method SottomatriceProibita(a: seq<seq<int>>, cols: nat, c1: nat, c2: nat) returns (r: int)
    requires Rect(a, cols) && c1 < cols && c2 < cols
    ensures r == 0 || r == 1
    ensures r == 1 <==> Overlapping(a, cols, c1, c2)
  {
    var found := ThreePatterns(a, cols, c1, c2, 0, 1, 1, 0, 1, 1);
    r := if found then 1 else 0;
  }

  /** Overlap: 1 exactly when characters c1 and c2 of the reduced matrix overlap. */
  method Overlap(mO: seq<seq<int>>, cols: nat, c1: nat, c2: nat) returns (r: int)
    requires Rect(mO, cols) && c1 < cols && c2 < cols
    ensures r == 0 || r == 1
    ensures r == 1 <==> Overlapping(mO, cols, c1, c2)
  {
    var found := ThreePatterns(mO, cols, c1, c2, 1, 1, 0, 1, 1, 0);
    r := if found then 1 else 0;
  }

  /** nonOverlap: 1 exactly when character c overlaps no other character. */
  method NonOverlap(mO: seq<seq<int>>, cols: nat, c: nat) returns (r: int)
    requires Rect(mO, cols) && c < cols
    ensures r == 0 || r == 1
    ensures r == 1 <==> forall i :: 0 <= i < cols && i != c ==> !Overlapping(mO, cols, i, c)
  {
    var i := 0;
    while i < cols
      invariant i <= cols
      invariant forall k :: 0 <= k < i && k != c ==> !Overlapping(mO, cols, k, c)
    {
      if i != c {
        var o := Overlap(mO, cols, i, c);
        if o == 1 {
          return 0;
        }
      }
      i := i + 1;
    }
    return 1;
  }

  /** Overlap does not depend on the order of the two characters. */
  lemma OverlappingSymmetric(m: seq<seq<int>>, cols: nat, c1: nat, c2: nat)
    requires Rect(m, cols) && c1 < cols && c2 < cols
    ensures Overlapping(m, cols, c1, c2) <==> Overlapping(m, cols, c2, c1)
  {
    ShowsSwap(m, cols, c1, c2, 0, 1);
    ShowsSwap(m, cols, c1, c2, 1, 0);
    ShowsSwap(m, cols, c1, c2, 1, 1);
  }

  /** A character never overlaps itself. */
  lemma OverlappingDistinct(m: seq<seq<int>>, cols: nat, c1: nat, c2: nat)
    requires Rect(m, cols) && c1 < cols && c2 < cols
    requires Overlapping(m, cols, c1, c2)
    ensures c1 != c2
  {
    var k :| 0 <= k < |m| && m[k][c1] == 0 && m[k][c2] == 1;
  }

  lemma ShowsSwap(m: seq<seq<int>>, cols: nat, c1: nat, c2: nat, x: int, y: int)
    requires Rect(m, cols) && c1 < cols && c2 < cols
    ensures Shows(m, cols, c1, c2, x, y) <==> Shows(m, cols, c2, c1, y, x)
  {
    if Shows(m, cols, c1, c2, x, y) {
      var k :| 0 <= k < |m| && m[k][c1] == x && m[k][c2] == y;
      assert m[k][c2] == y && m[k][c1] == x;
    }
    if Shows(m, cols, c2, c1, y, x) {
      var k :| 0 <= k < |m| && m[k][c2] == y && m[k][c1] == x;
      assert m[k][c1] == x && m[k][c2] == y;
    }
  }

  lemma RedSigmaSymmetric(m: seq<seq<int>>, cols: nat, c1: nat, c2: nat)
    requires Rect(m, cols) && c1 < cols && c2 < cols
    ensures RedSigma(m, cols, c1, c2) <==> RedSigma(m, cols, c2, c1)
  {
    ShowsSwap(m, cols, c1, c2, 0, 2);
    ShowsSwap(m, cols, c1, c2, 2, 0);
    ShowsSwap(m, cols, c1, c2, 2, 2);
  }

  /** Some two distinct columns of m form a red sigma. */
  ghost predicate HasRedSigma(m: seq<seq<int>>, cols: nat)
    requires Rect(m, cols)
  {
    exists c1, c2 :: 0 <= c1 < cols && 0 <= c2 < cols && c1 != c2 && RedSigma(m, cols, c1, c2)
  }

  /**
   * sigmaRossi: 1 exactly when two distinct columns form a red sigma.  The
   * scan only tries first columns below cols - 1 and second columns from 1
   * on; since the pattern is symmetric this still covers every pair.
   */
  method SigmaRossi(m: seq<seq<int>>, cols: nat) returns (r: int)
    requires Rect(m, cols)
    ensures r == 0 || r == 1
    ensures r == 1 <==> HasRedSigma(m, cols)
  {
    var c1 := 0;
    while c1 < cols - 1
      invariant 0 <= c1 && (cols > 0 ==> c1 <= cols - 1)
      invariant forall a, b :: 0 <= a < c1 && 1 <= b < cols && a != b ==> !RedSigma(m, cols, a, b)
    {
      var c2 := 1;
      while c2 < cols
        invariant 1 <= c2 <= cols
        invariant forall a, b :: 0 <= a < c1 && 1 <= b < cols && a != b ==> !RedSigma(m, cols, a, b)
        invariant forall b :: 1 <= b < c2 && c1 != b ==> !RedSigma(m, cols, c1, b)
      {
        if c1 != c2 {
          var found := ThreePatterns(m, cols, c1, c2, 0, 2, 2, 0, 2, 2);
          if found {
            assert RedSigma(m, cols, c1, c2);
            return 1;
          }
        }
        c2 := c2 + 1;
      }
      c1 := c1 + 1;
    }
    forall a, b | 0 <= a < cols && 0 <= b < cols && a != b
      ensures !RedSigma(m, cols, a, b)
    {
      if b < a {
        RedSigmaSymmetric(m, cols, a, b);
      }
    }
    return 0;
  }

  //---------------------------------------------------------------------------
  // Inclusion and equality of species and characters

  /** s1 is included in s2: no position has 1 in s1 and 0 in s2. */
  predicate Included(s1: seq<int>, s2: seq<int>)
    requires |s1| == |s2|
  {
    forall i :: 0 <= i < |s1| ==> !(s1[i] == 1 && s2[i] == 0)
  }

  /** included (the array form): 1 exactly when the first cols entries of s1 are included in those of s2. */
  method IncludedRows(cols: nat, s1: seq<int>, s2: seq<int>) returns (r: int)
    requires cols <= |s1| && cols <= |s2|
    ensures r == 0 || r == 1
    ensures r == 1 <==> Included(s1[..cols], s2[..cols])
  {
    var i := 0;
    while i < cols
      invariant i <= cols
      invariant Included(s1[..i], s2[..i])
    {
      if s1[i] == 1 && s2[i] == 0 {
        assert s1[..cols][i] == 1 && s2[..cols][i] == 0;
        return 0;
      }
      i := i + 1;
    }
    return 1;
  }

  /** sIncluded and included (the matrix form): species s1 is included in species s2. */
  method SIncluded(m: seq<seq<int>>, cols: nat, s1: nat, s2: nat) returns (r: int)
    requires Rect(m, cols) && s1 < |m| && s2 < |m|
    ensures r == 0 || r == 1
    ensures r == 1 <==> Included(m[s1], m[s2])
  {
    r := IncludedRows(cols, m[s1], m[s2]);
    assert m[s1][..cols] == m[s1] && m[s2][..cols] == m[s2];
  }

  /** inclusioneCaratteri: character c1 is included in character c2. */
  method InclusioneCaratteri(m: seq<seq<int>>, cols: nat, c1: nat, c2: nat) returns (r: int)
    requires Rect(m, cols) && c1 < cols && c2 < cols
    ensures r == 0 || r == 1
    ensures r == 1 <==> Included(Column(m, cols, c1), Column(m, cols, c2))
  {
    var i := 0;
    while i < |m|
      invariant i <= |m|
      invariant forall k :: 0 <= k < i ==> !(m[k][c1] == 1 && m[k][c2] == 0)
    {
      if m[i][c1] == 1 && m[i][c2] == 0 {
        assert Column(m, cols, c1)[i] == 1 && Column(m, cols, c2)[i] == 0;
        return 0;
      }
      i := i + 1;
    }
    return 1;
  }

  /** uguali: characters c1 and c2 have equal columns. */
  method Uguali(m: seq<seq<int>>, cols: nat, c1: nat, c2: nat) returns (r: int)
    requires Rect(m, cols) && c1 < cols && c2 < cols
    ensures r == 0 || r == 1
    ensures r == 1 <==> Column(m, cols, c1) == Column(m, cols, c2)
  {
    var i := 0;
    while i < |m|
      invariant i <= |m|
      invariant forall k :: 0 <= k < i ==> m[k][c1] == m[k][c2]
    {
      if m[i][c1] != m[i][c2] {
        assert Column(m, cols, c1)[i] != Column(m, cols, c2)[i];
        return 0;
      }
      i := i + 1;
    }
    return 1;
  }

  /** specieUguali (the array form): the first cols entries of s1 and s2 agree. */
  method EqualRows(cols: nat, s1: seq<int>, s2: seq<int>) returns (r: int)
    requires cols <= |s1| && cols <= |s2|
    ensures r == 0 || r == 1
    ensures r == 1 <==> s1[..cols] == s2[..cols]
  {
    var i := 0;
    while i < cols
      invariant i <= cols
      invariant s1[..i] == s2[..i]
    {
      if s1[i] != s2[i] {
        assert s1[..cols][i] != s2[..cols][i];
        return 0;
      }
      assert s1[..i + 1] == s1[..i] + [s1[i]] && s2[..i + 1] == s2[..i] + [s2[i]];
      i := i + 1;
    }
    return 1;
  }

  /** specieUguali (the matrix form): species s1 and s2 are equal rows. */
  method SpecieUguali(m: seq<seq<int>>, cols: nat, s1: nat, s2: nat) returns (r: int)
    requires Rect(m, cols) && s1 < |m| && s2 < |m|
    ensures r == 0 || r == 1
    ensures r == 1 <==> m[s1] == m[s2]
  {
    r := EqualRows(cols, m[s1], m[s2]);
    assert m[s1][..cols] == m[s1] && m[s2][..cols] == m[s2];
  }

  /**
   * specieDiversa: 1 exactly when species s differs from every earlier
   * species, so the first species always counts as different.
   */
  method SpecieDiversa(m: seq<seq<int>>, cols: nat, s: nat) returns (r: int)
    requires Rect(m, cols) && s < |m|
    ensures r == 0 || r == 1
    ensures r == 1 <==> m[s] !in m[..s]
  {
    var cont := 0;
    var i := 0;
    while i < s
      invariant i <= s
      invariant cont >= 0
      invariant cont > 0 <==> m[s] in m[..i]
    {
      var same := SpecieUguali(m, cols, i, s);
      assert m[..i + 1] == m[..i] + [m[i]];
      if same == 1 {
        cont := cont + 1;
      }
      i := i + 1;
    }
    r := if cont > 0 then 0 else 1;
  }

  /** On 0/1 rows, equality is inclusion both ways. */
  lemma EqualIffMutuallyIncluded(s1: seq<int>, s2: seq<int>)
    requires |s1| == |s2| && Binary(s1) && Binary(s2)
    ensures s1 == s2 <==> Included(s1, s2) && Included(s2, s1)
  {
    if Included(s1, s2) && Included(s2, s1) {
      forall i | 0 <= i < |s1| ensures s1[i] == s2[i] {
        assert !(s1[i] == 1 && s2[i] == 0) && !(s2[i] == 1 && s1[i] == 0);
      }
    }
  }

  /** Inclusion chains through a 0/1 middle row. */
  lemma IncludedTransitive(s1: seq<int>, s2: seq<int>, s3: seq<int>)
    requires |s1| == |s2| == |s3| && Binary(s2)
    requires Included(s1, s2) && Included(s2, s3)
    ensures Included(s1, s3)
  {
    forall i | 0 <= i < |s1| ensures !(s1[i] == 1 && s3[i] == 0) {
      assert !(s1[i] == 1 && s2[i] == 0) && !(s2[i] == 1 && s3[i] == 0);
    }
  }

  /** Through a middle row holding a red entry, inclusion does not chain. */
  lemma IncludedNotTransitiveWithRed()
    ensures Included([1], [2]) && Included([2], [0]) && !Included([1], [0])
  {
    assert [1][0] == 1 && [0][0] == 0;
  }

  //---------------------------------------------------------------------------
  // Counting

  /** conta_uni: the number of 1 entries in the first cols entries of a row. */
  method ContaUni(m: seq<seq<int>>, riga: nat, cols: nat) returns (n: nat)
    requires riga < |m| && cols <= |m[riga]|
    ensures n == multiset(m[riga][..cols])[1]
  {
    n := 0;
    var i := 0;
    while i < cols
      invariant i <= cols
      invariant n == multiset(m[riga][..i])[1]
    {
      assert m[riga][..i + 1] == m[riga][..i] + [m[riga][i]];
      if m[riga][i] == 1 {
        n := n + 1;
      }
      i := i + 1;
    }
  }

  /** attivo: 1 exactly when column c holds a red entry. */
  method Attivo(m: seq<seq<int>>, cols: nat, c: nat) returns (r: int)
    requires Rect(m, cols) && c < cols
    ensures r == 0 || r == 1
    ensures r == 1 <==> 2 in Column(m, cols, c)
  {
    var i := 0;
    while i < |m|
      invariant i <= |m|
      invariant forall k :: 0 <= k < i ==> m[k][c] != 2
    {
      if m[i][c] == 2 {
        assert Column(m, cols, c)[i] == 2;
        return 1;
      }
      i := i + 1;
    }
    return 0;
  }

  /** inDeg: the number of arcs entering species col of the Hasse diagram. */
  method InDeg(hasse: seq<seq<int>>, righe: nat, col: nat) returns (deg: nat)
    requires Rect(hasse, righe) && col < righe
    ensures deg == multiset(Column(hasse, righe, col))[1]
  {
    deg := 0;
    var i := 0;
    ghost var column := Column(hasse, righe, col);
    while i < |hasse|
      invariant i <= |hasse|
      invariant deg == multiset(column[..i])[1]
    {
      assert column[..i + 1] == column[..i] + [hasse[i][col]];
      if hasse[i][col] == 1 {
        deg := deg + 1;
      }
      i := i + 1;
    }
    assert column[..i] == column;
  }

  /** outDeg: the number of arcs leaving species riga of the Hasse diagram. */
  method OutDeg(hasse: seq<seq<int>>, righe: nat, riga: nat) returns (deg: nat)
    requires Rect(hasse, righe) && riga < |hasse|
    ensures deg == multiset(hasse[riga])[1]
  {
    deg := ContaUni(hasse, riga, righe);
    assert hasse[riga][..righe] == hasse[riga];
  }

  /** The 1 entries of the first k columns, counted column by column. */
  ghost function ColumnOnes(h: seq<seq<int>>, cols: nat, k: nat): nat
    requires Rect(h, cols) && k <= cols
  {
    if k == 0 then 0 else ColumnOnes(h, cols, k - 1) + multiset(Column(h, cols, k - 1))[1]
  }

  /** The 1 entries of all rows, counted row by row. */
  ghost function RowOnes(h: seq<seq<int>>): nat
  {
    if h == [] then 0 else RowOnes(h[..|h| - 1]) + multiset(h[|h| - 1])[1]
  }

  /**
   * Every arc of the Hasse diagram leaves one species and enters one: the
   * in-degrees and the out-degrees have the same sum.
   */
  lemma {:induction false} DegreeSums(h: seq<seq<int>>, cols: nat)
    requires Rect(h, cols)
    ensures ColumnOnes(h, cols, cols) == RowOnes(h)
  {
    if h != [] {
      var p := h[..|h| - 1];
      var last := h[|h| - 1];
      DegreeSums(p, cols);
      ColumnOnesSnoc(p, last, cols, cols);
      assert p + [last] == h;
      assert last[..cols] == last;
    } else {
      NoRowsNoOnes(cols, cols);
    }
  }

  lemma {:induction false} NoRowsNoOnes(cols: nat, k: nat)
    requires k <= cols
    ensures ColumnOnes([], cols, k) == 0
  {
    if k > 0 {
      NoRowsNoOnes(cols, k - 1);
      assert Column([], cols, k - 1) == [];
    }
  }

  lemma {:induction false} ColumnOnesSnoc(p: seq<seq<int>>, last: seq<int>, cols: nat, k: nat)
    requires Rect(p, cols) && |last| == cols && k <= cols
    ensures Rect(p + [last], cols)
    ensures ColumnOnes(p + [last], cols, k) == ColumnOnes(p, cols, k) + multiset(last[..k])[1]
  {
    var h := p + [last];
    assert Rect(h, cols) by {
      forall i | 0 <= i < |h| ensures |h[i]| == cols {
        if i < |p| { assert h[i] == p[i]; }
      }
    }
    if k > 0 {
      ColumnOnesSnoc(p, last, cols, k - 1);
      assert Column(h, cols, k - 1) == Column(p, cols, k - 1) + [last[k - 1]];
      assert last[..k] == last[..k - 1] + [last[k - 1]];
    }
  }

  //---------------------------------------------------------------------------
  // Search

  /** The number of slots of the solver's fixed-size score arrays. */
  const Slots := 1000

  /**
   * trovaMassimo: the index of the first largest value among the first
   * Slots entries.
   */
  method TrovaMassimo(vettore: seq<int>) returns (indice: nat)
    requires |vettore| >= Slots
    ensures indice < Slots
    ensures forall i :: 0 <= i < Slots ==> vettore[i] <= vettore[indice]
    ensures forall i :: 0 <= i < indice ==> vettore[i] < vettore[indice]
  {
    var massimo := vettore[0];
    indice := 0;
    var i := 1;
    while i < Slots
      invariant 1 <= i <= Slots
      invariant indice < i && massimo == vettore[indice]
      invariant forall k :: 0 <= k < i ==> vettore[k] <= massimo
      invariant forall k :: 0 <= k < indice ==> vettore[k] < massimo
    {
      if vettore[i] > massimo {
        massimo := vettore[i];
        indice := i;
      }
      i := i + 1;
    }
  }

  /**
   * determinaIndice: the first free (-1) slot among the first n entries of
   * the solution; the source has no answer when there is none.
   */
  method DeterminaIndice(soluzione: seq<int>, n: nat) returns (i: nat)
    requires n <= |soluzione| && -1 in soluzione[..n]
    ensures i < n && soluzione[i] == -1
    ensures -1 !in soluzione[..i]
  {
    i := 0;
    while soluzione[i] != -1
      invariant i < n
      invariant -1 !in soluzione[..i]
      invariant -1 in soluzione[i..n]
      decreases n - i
    {
      assert soluzione[i..n] == [soluzione[i]] + soluzione[i + 1..n];
      assert soluzione[..i + 1] == soluzione[..i] + [soluzione[i]];
      i := i + 1;
    }
  }

  //---------------------------------------------------------------------------
  // Paths

  /** n copies of the end marker -1. */
  function Pad(n: nat): (r: seq<int>)
    ensures |r| == n && forall i :: 0 <= i < n ==> r[i] == -1
  {
    seq(n, _ => -1)
  }

  /**
   * What riordina_percorso writes: with n the number of entries other than
   * -1, the first n entries taken backwards, then -1 markers.
   */
  function Reordered(p: seq<int>): (r: seq<int>)
    ensures |r| == |p|
  {
    var n := |p| - multiset(p)[-1];
    seq(|p|, i requires 0 <= i < |p| => if i < n then p[n - 1 - i] else -1)
  }

  /** riordina_percorso: writes the path stored in percorso, backwards, into ordinato. */
  method RiordinaPercorso(ordinato: array<int>, percorso: seq<int>, righe: nat)
    requires righe <= ordinato.Length && righe <= |percorso|
    modifies ordinato
    ensures ordinato[..righe] == Reordered(percorso[..righe])
    ensures forall k :: righe <= k < ordinato.Length ==> ordinato[k] == old(ordinato[k])
  {
    ghost var p := percorso[..righe];
    var i := 0;
    while i < righe
      invariant i <= righe
      invariant forall k :: 0 <= k < i ==> ordinato[k] == -1
      invariant forall k :: righe <= k < ordinato.Length ==> ordinato[k] == old(ordinato[k])
    {
      ordinato[i] := -1;
      i := i + 1;
    }
    var nodi := CountNodes(percorso, righe);
    i := 0;
    while i < nodi
      invariant i <= nodi
      invariant forall k :: 0 <= k < i ==> ordinato[k] == p[nodi - 1 - k]
      invariant forall k :: i <= k < righe ==> ordinato[k] == -1
      invariant forall k :: righe <= k < ordinato.Length ==> ordinato[k] == old(ordinato[k])
    {
      ordinato[i] := percorso[nodi - 1 - i];
      i := i + 1;
    }
    ReorderedAt(p, ordinato[..righe], nodi);
  }

  /** The second loop of riordina_percorso: the entries of p[..righe] other than -1. */
  method CountNodes(p: seq<int>, righe: nat) returns (nodi: nat)
    requires righe <= |p|
    ensures nodi == righe - multiset(p[..righe])[-1] && nodi <= righe
  {
    nodi := 0;
    var i := 0;
    while i < righe
      invariant i <= righe
      invariant nodi == i - multiset(p[..i])[-1]
    {
      assert p[..i + 1] == p[..i] + [p[i]];
      if p[i] != -1 {
        nodi := nodi + 1;
      }
      i := i + 1;
    }
    assert multiset(p[..righe])[-1] <= |multiset(p[..righe])| == righe;
  }

  lemma ReorderedAt(p: seq<int>, o: seq<int>, nodi: nat)
    requires nodi == |p| - multiset(p)[-1] && |o| == |p|
    requires forall k :: 0 <= k < nodi ==> o[k] == p[nodi - 1 - k]
    requires forall k :: nodi <= k < |o| ==> o[k] == -1
    ensures o == Reordered(p)
  {
  }

  /**
   * On a path stored as its nodes followed by -1 markers, riordina_percorso
   * reverses the nodes and keeps the markers.
   */
  lemma ReorderedPath(q: seq<int>, k: nat)
    requires -1 !in q
    ensures Reordered(q + Pad(k)) == Reverse(q) + Pad(k)
  {
    var p := q + Pad(k);
    assert multiset(p)[-1] == k by {
      assert multiset(p) == multiset(q) + multiset(Pad(k));
      PadCount(k);
    }
    forall i | 0 <= i < |q| ensures Reverse(q)[i] == q[|q| - 1 - i] {
      ReverseIndex(q, i);
    }
  }

  /** Reordering a stored path twice gives it back. */
  lemma ReorderedTwice(q: seq<int>, k: nat)
    requires -1 !in q
    ensures Reordered(Reordered(q + Pad(k))) == q + Pad(k)
  {
    ReorderedPath(q, k);
    ReverseHasNoMarker(q);
    ReorderedPath(Reverse(q), k);
    ReverseReverse(q);
  }

  lemma {:induction false} PadCount(k: nat)
    ensures multiset(Pad(k))[-1] == k
  {
    if k > 0 {
      PadCount(k - 1);
      assert Pad(k) == Pad(k - 1) + [-1];
    }
  }

  lemma {:induction false} ReverseIndex(s: seq<int>, i: nat)
    requires i < |s|
    ensures Reverse(s)[i] == s[|s| - 1 - i]
  {
    if i < |s| - 1 {
      ReverseIndex(s[1..], i);
    }
  }

  lemma ReverseHasNoMarker(s: seq<int>)
    requires -1 !in s
    ensures -1 !in Reverse(s)
  {
    ReverseMultiset(s);
    assert -1 !in multiset(s);
  }

  lemma {:induction false} ReverseReverse(s: seq<int>)
    ensures Reverse(Reverse(s)) == s
  {
    if s != [] {
      ReverseReverse(s[1..]);
      ReverseAppend(Reverse(s[1..]), [s[0]]);
      assert Reverse([s[0]]) == [s[0]];
      assert s == [s[0]] + s[1..];
    }
  }
}
