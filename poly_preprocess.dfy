/**
 * Row de-duplication of the older polynomial-time solver (preProcessing).
 *
 * The reduced matrix keeps, in their original order, the species that are
 * the first occurrence of their row and that hold at least one character.
 * Whether a species "can be activated" is recorded in a local array whose
 * initial contents matter for species without any character.
 */
module PolyPreprocess {
  import opened Seqs
  import opened PolyMatrix

  /**
   * attivabile after the counting loop: 1 for species holding a 1, the
   * initial contents init elsewhere.
   */
  function Activatable(m: seq<seq<int>>, init: seq<int>): (act: seq<int>)
    requires |init| == |m|
    ensures |act| == |m|
    ensures forall i :: 0 <= i < |m| ==> act[i] == if 1 in m[i] then 1 else init[i]
  {
    seq(|m|, i requires 0 <= i < |m| => if 1 in m[i] then 1 else init[i])
  }

  /** The intended initial contents of attivabile: 0 for every species. */
  function Zeros(n: nat): (z: seq<int>)
    ensures |z| == n && forall i :: 0 <= i < n ==> z[i] == 0
  {
    seq(n, _ => 0)
  }

  /**
   * The initial contents of attivabile as the source writes them: only the
   * first righeIndotta entries are set to 0 (righeIndotta is the row count
   * of an earlier induced matrix), the others keep whatever stale value the
   * stack held.
   */
  function AsWrittenInit(righeIndotta: int, stale: seq<int>): (init: seq<int>)
    ensures |init| == |stale|
    ensures forall i :: 0 <= i < |stale| ==> init[i] == if i < righeIndotta then 0 else stale[i]
  {
    seq(|stale|, i requires 0 <= i < |stale| => if i < righeIndotta then 0 else stale[i])
  }

  /** Species i is the first occurrence of its row. */
  predicate FirstOccurrence(m: seq<seq<int>>, i: nat)
    requires i < |m|
  {
    m[i] !in m[..i]
  }

  /** The rows among the first n that are first occurrences and marked activatable. */
  function Kept(m: seq<seq<int>>, act: seq<int>, n: nat): seq<seq<int>>
    requires |act| == |m| && n <= |m|
  {
    if n == 0 then []
    else Kept(m, act, n - 1) + (if FirstOccurrence(m, n - 1) && act[n - 1] == 1 then [m[n - 1]] else [])
  }

  /**
   * preProcessing with attivabile zeroed for every species: returns the
   * reduced matrix and its row count.
   */
  method PreProcessing(m: seq<seq<int>>, cols: nat) returns (matO: seq<seq<int>>, righeO: nat)
    requires Rect(m, cols) && |m| >= 1
    ensures matO == Kept(m, Activatable(m, Zeros(|m|)), |m|)
    ensures righeO == |matO|
  {
    var attivabile := new int[|m|];
    var i := 0;
    while i < |m|
      invariant i <= |m|
      invariant forall k :: 0 <= k < i ==> attivabile[k] == 0
    {
      attivabile[i] := 0;
      i := i + 1;
    }
    assert attivabile[..] == Zeros(|m|);
    matO, righeO := KeepRows(m, cols, attivabile);
  }

  /**
   * preProcessing as written: attivabile is zeroed only below righeIndotta,
   * so the other slots keep the fresh array's unspecified contents stale.
   */
  method PreProcessingAsWritten(m: seq<seq<int>>, cols: nat, righeIndotta: nat)
    returns (matO: seq<seq<int>>, righeO: nat, ghost stale: seq<int>)
    requires Rect(m, cols) && |m| >= 1 && righeIndotta <= |m|
    ensures |stale| == |m|
    ensures matO == Kept(m, Activatable(m, AsWrittenInit(righeIndotta, stale)), |m|)
    ensures righeO == |matO|
  {
    var attivabile := new int[|m|];
    stale := attivabile[..];
    var i := 0;
    while i < righeIndotta
      invariant i <= righeIndotta
      invariant forall k :: 0 <= k < i ==> attivabile[k] == 0
      invariant forall k :: i <= k < |m| ==> attivabile[k] == stale[k]
    {
      attivabile[i] := 0;
      i := i + 1;
    }
    assert attivabile[..] == AsWrittenInit(righeIndotta, stale);
    matO, righeO := KeepRows(m, cols, attivabile);
  }

  /**
   * The rest of preProcessing from the initial contents of attivabile:
   * mark activatable species, mark first occurrences, copy the kept rows.
   */
  method KeepRows(m: seq<seq<int>>, cols: nat, attivabile: array<int>)
    returns (matO: seq<seq<int>>, righeO: nat)
    requires Rect(m, cols) && |m| >= 1 && attivabile.Length == |m|
    modifies attivabile
    ensures matO == Kept(m, Activatable(m, old(attivabile[..])), |m|)
    ensures righeO == |matO|
  {
    var righe := |m|;
    ghost var init := attivabile[..];
    var copia := new int[righe];
    var i := 0;
    while i < righe
      invariant i <= righe
      invariant forall k :: 0 <= k < i ==> copia[k] == -1
      modifies copia
    {
      copia[i] := -1;
      i := i + 1;
    }
    assert attivabile[..] == init;
    MarkActivatable(m, cols, attivabile);
    ghost var act := attivabile[..];
    assert act == Activatable(m, init);
    var nr := MarkFirstOccurrences(m, cols, copia, attivabile);
    assert attivabile[..] == act;
    righeO := nr;
    matO := [];
    var iMatrice := 0;
    while iMatrice < righe
      invariant iMatrice <= righe
      invariant matO == Kept(m, act, iMatrice)
      modifies {}
    {
      if copia[iMatrice] == 0 && attivabile[iMatrice] == 1 {
        matO := matO + [m[iMatrice]];
      }
      iMatrice := iMatrice + 1;
    }
  }

  /** The counting loop of preProcessing: species holding a 1 become activatable. */
  method MarkActivatable(m: seq<seq<int>>, cols: nat, attivabile: array<int>)
    requires Rect(m, cols) && attivabile.Length == |m|
    modifies attivabile
    ensures attivabile[..] == Activatable(m, old(attivabile[..]))
  {
    ghost var act := Activatable(m, attivabile[..]);
    var i := 0;
    while i < |m|
      invariant i <= |m|
      invariant forall k :: 0 <= k < i ==> attivabile[k] == act[k]
      invariant forall k :: i <= k < |m| ==> attivabile[k] == old(attivabile[k])
    {
      var nUni := ContaUni(m, i, cols);
      OnesMeanOne(m[i], cols);
      if nUni > 0 {
        attivabile[i] := 1;
      }
      i := i + 1;
    }
  }

  /**
   * The loop of preProcessing that marks first occurrences in copia (0) and
   * counts the rows to keep.
   */
  method MarkFirstOccurrences(m: seq<seq<int>>, cols: nat, copia: array<int>, attivabile: array<int>)
    returns (nr: nat)
    requires Rect(m, cols) && |m| >= 1 && copia.Length == |m| == attivabile.Length
    requires copia != attivabile
    requires forall k :: 0 <= k < |m| ==> copia[k] == -1
    modifies copia
    ensures forall k :: 0 <= k < |m| ==> (copia[k] == 0 <==> FirstOccurrence(m, k))
    ensures nr == |Kept(m, attivabile[..], |m|)|
  {
    ghost var act := attivabile[..];
    nr := 0;
    copia[0] := 0;
    if attivabile[0] == 1 {
      nr := nr + 1;
    }
    assert m[..0] == [];
    var i := 1;
    while i < |m|
      invariant 1 <= i <= |m|
      invariant forall k :: 0 <= k < i ==> (copia[k] == 0 <==> FirstOccurrence(m, k))
      invariant forall k :: i <= k < |m| ==> copia[k] == -1
      invariant nr == |Kept(m, act, i)|
    {
      var d := SpecieDiversa(m, cols, i);
      if d == 1 {
        copia[i] := 0;
        if attivabile[i] == 1 {
          nr := nr + 1;
        }
      }
      i := i + 1;
    }
  }

  lemma OnesMeanOne(row: seq<int>, cols: nat)
    requires |row| == cols
    ensures multiset(row[..cols])[1] > 0 <==> 1 in row
  {
    assert row[..cols] == row;
  }

  //---------------------------------------------------------------------------
  // What the reduced matrix holds

  /**
   * With attivabile zeroed, a row is in the reduced matrix exactly when some
   * species has it and it holds a 1.
   */
  lemma {:induction false} KeptMembers(m: seq<seq<int>>, n: nat, row: seq<int>)
    requires n <= |m|
    ensures row in Kept(m, Activatable(m, Zeros(|m|)), n) <==> row in m[..n] && 1 in row
  {
    var act := Activatable(m, Zeros(|m|));
    if n > 0 {
      KeptMembers(m, n - 1, row);
      assert m[..n] == m[..n - 1] + [m[n - 1]];
      if row == m[n - 1] && row in m[..n - 1] {
        assert !FirstOccurrence(m, n - 1);
      }
    }
  }

  /** No row occurs twice in the reduced matrix. */
  lemma {:induction false} KeptDistinct(m: seq<seq<int>>, act: seq<int>, n: nat)
    requires |act| == |m| && n <= |m|
    ensures Distinct(Kept(m, act, n))
  {
    if n > 0 {
      var prev := Kept(m, act, n - 1);
      KeptDistinct(m, act, n - 1);
      if FirstOccurrence(m, n - 1) && act[n - 1] == 1 {
        KeptFromPrefix(m, act, n - 1);
        DistinctSnoc(prev, m[n - 1]);
      }
    }
  }

  /** Every kept row is a row of the first n species. */
  lemma {:induction false} KeptFromPrefix(m: seq<seq<int>>, act: seq<int>, n: nat)
    requires |act| == |m| && n <= |m|
    ensures forall r :: r in Kept(m, act, n) ==> r in m[..n]
  {
    if n > 0 {
      KeptFromPrefix(m, act, n - 1);
      assert m[..n] == m[..n - 1] + [m[n - 1]];
    }
  }

  /**
   * The stale initial contents can keep a species without characters: a
   * single all-zero species, with righe_indotta 0 and a stale 1 in its slot,
   * survives as written but is dropped when attivabile starts at 0.
   */
  lemma StaleRowKept()
    ensures Kept([[0]], Activatable([[0]], AsWrittenInit(0, [1])), 1) == [[0]]
    ensures Kept([[0]], Activatable([[0]], Zeros(1)), 1) == []
  {
    var m := [[0]];
    assert 1 !in m[0];
    assert m[..0] == [];
    assert Activatable(m, AsWrittenInit(0, [1]))[0] == 1;
    assert Activatable(m, Zeros(1))[0] == 0;
  }
}
