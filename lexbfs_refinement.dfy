/**
 * The pivot step of the consecutive-ones test's second phase: for a pivot
 * vertex x, the classes holding a clique that contains x must be
 * consecutive, every class strictly between the first and the last of them
 * must lie inside C (the cliques holding x), and then the first and last
 * such classes are split around C.
 */
module LexRefinement {
  import opened Seqs
  import opened LexClique
  import opened LexCliqueClasses

  // ---------------------------------------------------------------------
  // The cliques holding a vertex, and the classes they lie in
  // ---------------------------------------------------------------------

  /** Indices, in increasing order, of the first n cliques that contain x. */
  function Holders(cl: seq<Clique>, x: int, n: nat): (r: seq<int>)
    requires n <= |cl|
    ensures IndicesBelow(r, n)
    ensures forall c :: c in r <==> 0 <= c < n && x in cl[c].vertices
  {
    if n == 0 then []
    else Holders(cl, x, n - 1) + (if x in cl[n - 1].vertices then [n - 1] else [])
  }

  /** Some member of the class (a list of clique indices below n) contains x. */
  predicate HoldsBelow(cl: seq<Clique>, cls: seq<int>, x: int, n: int)
    requires IndicesBelow(cls, |cl|)
  {
    exists t :: 0 <= t < |cls| && cls[t] < n && x in cl[cls[t]].vertices
  }

  /** Some clique of the class contains x. */
  predicate ClassHolds(cl: seq<Clique>, cls: seq<int>, x: int)
    requires IndicesBelow(cls, |cl|)
  {
    HoldsBelow(cl, cls, x, |cl|)
  }

  lemma HoldsBelowStep(cl: seq<Clique>, cls: seq<int>, x: int, n: nat)
    requires IndicesBelow(cls, |cl|) && n < |cl|
    ensures HoldsBelow(cl, cls, x, n + 1) <==> HoldsBelow(cl, cls, x, n) || (n in cls && x in cl[n].vertices)
  {
    if n in cls && x in cl[n].vertices {
      var t :| 0 <= t < |cls| && cls[t] == n;
      assert cls[t] < n + 1 && x in cl[cls[t]].vertices;
    }
    if HoldsBelow(cl, cls, x, n + 1) && !HoldsBelow(cl, cls, x, n) {
      var t :| 0 <= t < |cls| && cls[t] < n + 1 && x in cl[cls[t]].vertices;
      assert cls[t] == n;
    }
  }

  /**
   * Collects C, the cliques containing x, and marks every class of L that
   * holds one of them; a clique's class is found by its identifier.
   */
  method MarkClasses(cl: seq<Clique>, L: seq<seq<int>>, x: int) returns (C: seq<int>, flags: seq<bool>)
    requires IdsAreIndices(cl)
    requires forall c :: 0 <= c < |L| ==> IndicesBelow(L[c], |cl|)
    ensures C == Holders(cl, x, |cl|)
    ensures |flags| == |L| && forall c :: 0 <= c < |L| ==> (flags[c] <==> ClassHolds(cl, L[c], x))
  {
    C := [];
    flags := seq(|L|, _ => false);
    var index := 0;
    while index < |cl|
      invariant 0 <= index <= |cl| && C == Holders(cl, x, index)
      invariant |flags| == |L| && forall c :: 0 <= c < |L| ==> (flags[c] <==> HoldsBelow(cl, L[c], x, index))
    {
      var holds := ContainsXasOneEntry(cl[index], x);
      if holds {
        C := C + [index];
        flags := MarkClassesOf(cl, L, flags, index);
      }
      forall c | 0 <= c < |L| ensures flags[c] <==> HoldsBelow(cl, L[c], x, index + 1) {
        HoldsBelowStep(cl, L[c], x, index);
      }
      index := index + 1;
    }
  }

  /** Sets the flag of every class that holds the clique with the given index. */
  method MarkClassesOf(cl: seq<Clique>, L: seq<seq<int>>, flags: seq<bool>, index: nat) returns (flags': seq<bool>)
    requires IdsAreIndices(cl) && index < |cl| && |flags| == |L|
    requires forall c :: 0 <= c < |L| ==> IndicesBelow(L[c], |cl|)
    ensures |flags'| == |L| && forall c :: 0 <= c < |L| ==> (flags'[c] <==> flags[c] || index in L[c])
  {
    flags' := flags;
    var classIndex := 0;
    while classIndex < |L|
      invariant 0 <= classIndex <= |L| && |flags'| == |L|
      invariant forall c :: 0 <= c < classIndex ==> (flags'[c] <==> flags[c] || index in L[c])
      invariant forall c :: classIndex <= c < |L| ==> flags'[c] == flags[c]
    {
      var r := DoesClassContainClique(cl, L[classIndex], cl[index].id);
      if r {
        flags' := flags'[classIndex := true];
      }
      classIndex := classIndex + 1;
    }
  }

  // ---------------------------------------------------------------------
  // Consecutiveness of the marked classes
  // ---------------------------------------------------------------------

  /** The marked classes form one block: no unmarked class between two marked ones. */
  predicate Consecutive(f: seq<bool>)
  {
    forall a, b, c :: 0 <= a < b < c < |f| && f[a] && f[c] ==> f[b]
  }

  /** The last flag of f, or false for the empty sequence. */
  function LastFlag(f: seq<bool>): bool
  {
    if f == [] then false else f[|f| - 1]
  }

  /** Number of positions where a flag differs from the one before it (false before the first). */
  function Changes(f: seq<bool>): nat
  {
    if f == [] then 0
    else Changes(f[..|f| - 1]) + (if f[|f| - 1] != LastFlag(f[..|f| - 1]) then 1 else 0)
  }

  /** Counts the changes in one scan, tracking the last value seen. */
  method CountChanges(flags: seq<bool>) returns (numOfChanges: int)
    ensures numOfChanges == Changes(flags)
    ensures numOfChanges < 3 <==> Consecutive(flags)
  {
    numOfChanges := 0;
    var lastValue := false;
    var i := 0;
    while i < |flags|
      invariant 0 <= i <= |flags|
      invariant numOfChanges == Changes(flags[..i]) && lastValue == LastFlag(flags[..i])
    {
      assert flags[..i + 1][..i] == flags[..i];
      if flags[i] != lastValue {
        numOfChanges := numOfChanges + 1;
        lastValue := !lastValue;
      }
      i := i + 1;
    }
    assert flags[..i] == flags;
    ChangesConsecutive(flags);
  }

  /** The parity of the change count tells the last flag. */
  lemma {:induction false} ChangesParity(f: seq<bool>)
    ensures LastFlag(f) <==> Changes(f) % 2 == 1
  {
    if f != [] {
      ChangesParity(f[..|f| - 1]);
    }
  }

  /** A prefix has no more changes than the whole. */
  lemma {:induction false} ChangesMono(f: seq<bool>, m: nat)
    requires m <= |f|
    ensures Changes(f[..m]) <= Changes(f)
  {
    if m < |f| {
      var init := f[..|f| - 1];
      assert init[..m] == f[..m];
      ChangesMono(init, m);
    } else {
      assert f[..m] == f;
    }
  }

  /** When the flag at m-1 differs from the last flag of the prefix of length l, a change lies in between. */
  lemma ChangeBetween(f: seq<bool>, l: nat, m: nat)
    requires l < m <= |f| && LastFlag(f[..l]) != f[m - 1]
    ensures Changes(f[..m]) >= Changes(f[..l]) + 1
  {
    assert f[..m][..l] == f[..l];
    ChangesMono(f[..m], l);
    ChangesParity(f[..l]);
    ChangesParity(f[..m]);
  }

  /** Every count up to the total is reached by some prefix. */
  lemma {:induction false} ChangesReach(f: seq<bool>, t: nat)
    requires 1 <= t <= Changes(f)
    ensures exists n :: 1 <= n <= |f| && Changes(f[..n]) == t
  {
    var init := f[..|f| - 1];
    if Changes(init) >= t {
      ChangesReach(init, t);
      var n :| 1 <= n <= |init| && Changes(init[..n]) == t;
      assert init[..n] == f[..n];
    } else {
      assert f[..|f|] == f;
    }
  }

  /** Fewer than three changes exactly when the marked classes are consecutive. */
  lemma ChangesConsecutive(f: seq<bool>)
    ensures Changes(f) < 3 <==> Consecutive(f)
  {
    if !Consecutive(f) {
      var a, b, c :| 0 <= a < b < c < |f| && f[a] && f[c] && !f[b];
      GapMakesChanges(f, a, b, c);
    }
    if Changes(f) >= 3 {
      ChangesMakeGap(f);
    }
  }

  /** A marked, an unmarked and a marked class in this order cost three changes. */
  lemma GapMakesChanges(f: seq<bool>, a: nat, b: nat, c: nat)
    requires a < b < c < |f| && f[a] && !f[b] && f[c]
    ensures Changes(f) >= 3
  {
    assert f[..0] == [];
    assert f[..a + 1][a] == f[a] && f[..b + 1][b] == f[b];
    ChangeBetween(f, 0, a + 1);
    ChangeBetween(f, a + 1, b + 1);
    ChangeBetween(f, b + 1, c + 1);
    ChangesMono(f, c + 1);
  }

  /** Three changes reveal a marked, an unmarked and a marked class in this order. */
  lemma ChangesMakeGap(f: seq<bool>)
    requires Changes(f) >= 3
    ensures !Consecutive(f)
  {
    ChangesReach(f, 1);
    ChangesReach(f, 2);
    ChangesReach(f, 3);
    var n1 :| 1 <= n1 <= |f| && Changes(f[..n1]) == 1;
    var n2 :| 1 <= n2 <= |f| && Changes(f[..n2]) == 2;
    var n3 :| 1 <= n3 <= |f| && Changes(f[..n3]) == 3;
    PrefixOrder(f, n1, n2);
    PrefixOrder(f, n2, n3);
    PrefixFlag(f, n1);
    PrefixFlag(f, n2);
    PrefixFlag(f, n3);
    assert f[n1 - 1] && !f[n2 - 1] && f[n3 - 1];
  }

  /** The flag ending a prefix is told by the parity of the prefix's changes. */
  lemma PrefixFlag(f: seq<bool>, n: nat)
    requires 1 <= n <= |f|
    ensures f[n - 1] <==> Changes(f[..n]) % 2 == 1
  {
    ChangesParity(f[..n]);
    assert LastFlag(f[..n]) == f[n - 1];
  }

  /** A prefix with fewer changes is shorter. */
  lemma PrefixOrder(f: seq<bool>, m: nat, n: nat)
    requires m <= |f| && n <= |f| && Changes(f[..m]) < Changes(f[..n])
    ensures m < n
  {
    if n <= m {
      assert f[..m][..n] == f[..n];
      ChangesMono(f[..m], n);
    }
  }

  /**
   * La is the first marked class; Lb ends the run of marked classes that
   * starts there (the last class when the run reaches the end).
   */
  method FindBounds(flags: seq<bool>) returns (La: int, Lb: int)
    requires exists i :: 0 <= i < |flags| && flags[i]
    ensures 0 <= La <= Lb < |flags|
    ensures flags[La] && forall i :: 0 <= i < La ==> !flags[i]
    ensures (forall i :: La <= i <= Lb ==> flags[i]) && (Lb == |flags| - 1 || !flags[Lb + 1])
    ensures Consecutive(flags) ==> forall i :: 0 <= i < |flags| ==> (flags[i] <==> La <= i <= Lb)
  {
    La := -1;
    Lb := -1;
    var i := 0;
    while i < |flags|
      invariant 0 <= i <= |flags| && forall j :: 0 <= j < i ==> !flags[j]
    {
      if flags[i] {
        La := i;
        break;
      }
      i := i + 1;
    }
    i := La + 1;
    while i < |flags|
      invariant La + 1 <= i <= |flags| && forall j :: La <= j < i ==> flags[j]
    {
      if !flags[i] {
        Lb := i - 1;
        break;
      }
      i := i + 1;
    }
    if Lb == -1 {
      Lb := |flags| - 1;
    }
  }

  /**
   * Whether every class strictly between La and Lb lies inside C; a member
   * is looked up in C by its identifier.
   */
  method AllInside(cl: seq<Clique>, L: seq<seq<int>>, La: int, Lb: int, C: seq<int>) returns (ok: bool)
    requires IdsAreIndices(cl) && IndicesBelow(C, |cl|)
    requires forall c :: 0 <= c < |L| ==> IndicesBelow(L[c], |cl|)
    requires -1 <= La && Lb <= |L|
    ensures ok <==> forall i, j :: La < i < Lb && 0 <= j < |L[i]| ==> L[i][j] in C
  {
    var i := La + 1;
    while i < Lb
      invariant La + 1 <= i && (i <= Lb || i == La + 1)
      invariant forall i', j :: La < i' < i && 0 <= j < |L[i']| ==> L[i'][j] in C
    {
      var j := 0;
      while j < |L[i]|
        invariant 0 <= j <= |L[i]| && forall j' :: 0 <= j' < j ==> L[i][j'] in C
      {
        var r := DoesClassContainClique(cl, C, cl[L[i][j]].id);
        if !r {
          return false;
        }
        j := j + 1;
      }
      i := i + 1;
    }
    return true;
  }

  // ---------------------------------------------------------------------
  // Splitting the first and last marked classes around C
  // ---------------------------------------------------------------------

  lemma ExtractStep(cls: seq<int>, i: nat, S: set<int>)
    requires i < |cls|
    ensures Drop(cls[i..], S) == (if cls[i] in S then [] else [cls[i]]) + Drop(cls[i + 1..], S)
    ensures Reverse(Keep(cls[i..], S)) == Reverse(Keep(cls[i + 1..], S)) + (if cls[i] in S then [cls[i]] else [])
  {
    assert cls[i..] == [cls[i]] + cls[i + 1..];
    KeepDropAppend([cls[i]], cls[i + 1..], S);
    assert [cls[i]][..0] == [];
    ReverseAppend(Keep([cls[i]], S), Keep(cls[i + 1..], S));
    assert [cls[i]][1..] == [];
  }

  /** Members left by a split are members of the class. */
  lemma DropIndices(cls: seq<int>, S: set<int>, n: int)
    requires IndicesBelow(cls, n)
    ensures IndicesBelow(Drop(cls, S), n) && IndicesBelow(Reverse(Keep(cls, S)), n)
  {
    SplitMembers(cls, S);
    SubIndices(Drop(cls, S), cls, n);
    SubIndices(Reverse(Keep(cls, S)), cls, n);
  }

  lemma SubIndices(a: seq<int>, s: seq<int>, n: int)
    requires multiset(a) <= multiset(s) && IndicesBelow(s, n)
    ensures IndicesBelow(a, n)
  {
    forall t | 0 <= t < |a| ensures 0 <= a[t] < n {
      assert a[t] in multiset(a);
      assert a[t] in s;
    }
  }

  /**
   * Scans the class from back to front: each member found in C (by its
   * identifier) is erased from the class and appended to the intersection,
   * which therefore lists the members in reverse order.
   */
  method Extract(cl: seq<Clique>, cls: seq<int>, C: seq<int>) returns (rest: seq<int>, inter: seq<int>)
    requires IdsAreIndices(cl) && IndicesBelow(cls, |cl|) && IndicesBelow(C, |cl|)
    ensures rest == Drop(cls, SetOf(C)) && inter == Reverse(Keep(cls, SetOf(C)))
  {
    ghost var S := SetOf(C);
    rest := cls;
    inter := [];
    var i := |cls| - 1;
    assert cls[i + 1..] == [];
    while i >= 0
      invariant -1 <= i < |cls|
      invariant rest == cls[..i + 1] + Drop(cls[i + 1..], S)
      invariant inter == Reverse(Keep(cls[i + 1..], S))
    {
      assert rest[i] == cls[i];
      ExtractStep(cls, i, S);
      var r := DoesClassContainClique(cl, C, cl[rest[i]].id);
      if r {
        inter := inter + [rest[i]];
        rest := rest[..i] + rest[i + 1..];
        assert rest == cls[..i] + Drop(cls[i..], S);
      } else {
        assert rest == cls[..i] + Drop(cls[i..], S);
      }
      i := i - 1;
    }
    assert cls[0..] == cls;
  }

  /**
   * L after the split: La loses the members of S, which follow it as a new
   * class in reverse order; Lb (as left by that) loses them too, and they
   * precede it as a new class; empty classes are dropped.
   */
  function Refined(L: seq<seq<int>>, S: set<int>, La: nat, Lb: nat): seq<seq<int>>
    requires La <= Lb < |L|
  {
    var L1 := L[La := Drop(L[La], S)];
    var L2 := L1[Lb := Drop(L1[Lb], S)];
    var L3 := L2[..Lb] + [Reverse(Keep(L1[Lb], S))] + L2[Lb..];
    NonEmpty(L3[..La + 1] + [Reverse(Keep(L[La], S))] + L3[La + 1..])
  }

  /** Splits La and Lb around C, inserting Lb's part first so that La's index stays valid. */
  method SplitAround(cl: seq<Clique>, L: seq<seq<int>>, C: seq<int>, La: nat, Lb: nat) returns (L': seq<seq<int>>)
    requires La <= Lb < |L|
    requires IdsAreIndices(cl) && IndicesBelow(C, |cl|)
    requires forall c :: 0 <= c < |L| ==> IndicesBelow(L[c], |cl|)
    ensures L' == Refined(L, SetOf(C), La, Lb)
  {
    var restA, interA := Extract(cl, L[La], C);
    L' := L[La := restA];
    DropIndices(L[La], SetOf(C), |cl|);
    var restB, interB := Extract(cl, L'[Lb], C);
    L' := L'[Lb := restB];
    L' := L'[..Lb] + [interB] + L'[Lb..];
    L' := L'[..La + 1] + [interA] + L'[La + 1..];
    L' := RemoveEmptyClasses(L');
  }

  /** Splitting a class by S and reversing one part keeps its members. */
  lemma SplitMembers(cls: seq<int>, S: set<int>)
    ensures multiset(cls) == multiset(Drop(cls, S)) + multiset(Reverse(Keep(cls, S)))
  {
    KeepDropSplit(cls, S);
    ReverseMultiset(Keep(cls, S));
  }

  /** The split keeps a partition of the k cliques and never loses a class. */
  lemma RefinedKeeps(L: seq<seq<int>>, k: nat, S: set<int>, La: nat, Lb: nat)
    requires Partition(L, k) && La <= Lb < |L|
    ensures Partition(Refined(L, S, La, Lb), k) && |Refined(L, S, La, Lb)| >= |L|
  {
    var RA, IA := Drop(L[La], S), Reverse(Keep(L[La], S));
    var L1 := L[La := RA];
    var RB, IB := Drop(L1[Lb], S), Reverse(Keep(L1[Lb], S));
    var L2 := L1[Lb := RB];
    var L3 := L2[..Lb] + [IB] + L2[Lb..];
    var L4 := L3[..La + 1] + [IA] + L3[La + 1..];
    assert Refined(L, S, La, Lb) == NonEmpty(L4);
    SplitMembers(L[La], S);
    SplitMembers(L1[Lb], S);
    RefinedMembers(L, La, Lb, RA, IA, L1, RB, IB, L2, L3, L4);
    NonEmptyFlatten(L4);
    RefinedCount(L, La, Lb, RA, IA, L1, RB, IB, L2, L3, L4);
    NonEmptyKeepsAll(L);
  }

  lemma RefinedMembers(L: seq<seq<int>>, La: nat, Lb: nat, RA: seq<int>, IA: seq<int>, L1: seq<seq<int>>,
                       RB: seq<int>, IB: seq<int>, L2: seq<seq<int>>, L3: seq<seq<int>>, L4: seq<seq<int>>)
    requires La <= Lb < |L|
    requires multiset(L[La]) == multiset(RA) + multiset(IA) && L1 == L[La := RA]
    requires multiset(L1[Lb]) == multiset(RB) + multiset(IB) && L2 == L1[Lb := RB]
    requires L3 == L2[..Lb] + [IB] + L2[Lb..] && L4 == L3[..La + 1] + [IA] + L3[La + 1..]
    ensures multiset(Flatten(L4)) == multiset(Flatten(L))
  {
    FlattenUpdate(L, La, RA);
    MultisetCancel(multiset(Flatten(L1)), multiset(L[La]), multiset(Flatten(L)), multiset(RA), multiset(IA));
    FlattenUpdate(L1, Lb, RB);
    MultisetCancel(multiset(Flatten(L2)), multiset(L1[Lb]), multiset(Flatten(L1)), multiset(RB), multiset(IB));
    FlattenInsert(L2, Lb, IB);
    FlattenInsert(L3, La + 1, IA);
  }

  lemma RefinedCount(L: seq<seq<int>>, La: nat, Lb: nat, RA: seq<int>, IA: seq<int>, L1: seq<seq<int>>,
                     RB: seq<int>, IB: seq<int>, L2: seq<seq<int>>, L3: seq<seq<int>>, L4: seq<seq<int>>)
    requires La <= Lb < |L| && L[La] != []
    requires multiset(L[La]) == multiset(RA) + multiset(IA) && L1 == L[La := RA]
    requires multiset(L1[Lb]) == multiset(RB) + multiset(IB) && L2 == L1[Lb := RB]
    requires L3 == L2[..Lb] + [IB] + L2[Lb..] && L4 == L3[..La + 1] + [IA] + L3[La + 1..]
    ensures Classes(L4) >= Classes(L)
  {
    ClassesUpdate(L, La, RA);
    ClassesUpdate(L1, Lb, RB);
    ClassesInsert(L2, Lb, IB);
    ClassesInsert(L3, La + 1, IA);
    assert |multiset(L[La])| == |multiset(RA)| + |multiset(IA)|;
    assert |multiset(L1[Lb])| == |multiset(RB)| + |multiset(IB)|;
  }

  // ---------------------------------------------------------------------
  // Processing the pivots
  // ---------------------------------------------------------------------

  /** Every class holds clique indices below n only. */
  predicate ClassesBelow(L: seq<seq<int>>, n: int)
  {
    forall c :: 0 <= c < |L| ==> IndicesBelow(L[c], n)
  }

  /** v is a vertex below n of some clique. */
  predicate IsVertex(cl: seq<Clique>, v: int, n: int)
  {
    0 <= v < n && exists c :: 0 <= c < |cl| && v in cl[c].vertices
  }

  /** Every pivot on the stack is a vertex of some clique. */
  predicate PivotsOk(cl: seq<Clique>, pivots: seq<int>, n: int)
  {
    forall i :: 0 <= i < |pivots| ==> IsVertex(cl, pivots[i], n)
  }

  /** For each class of L, whether it holds a clique containing x. */
  function Marks(cl: seq<Clique>, L: seq<seq<int>>, x: int): (f: seq<bool>)
    requires ClassesBelow(L, |cl|)
    ensures |f| == |L|
  {
    seq(|L|, c requires 0 <= c < |L| => ClassHolds(cl, L[c], x))
  }

  /**
   * The test a pivot x must pass: the classes holding a clique containing x
   * are consecutive, and a class whose two neighbours both hold one (a class
   * strictly inside the run) consists of cliques containing x only.
   */
  predicate PivotAccepted(cl: seq<Clique>, L: seq<seq<int>>, x: int)
    requires ClassesBelow(L, |cl|)
  {
    var f := Marks(cl, L, x);
    && Consecutive(f)
    && forall i, j :: 0 < i < |L| - 1 && f[i - 1] && f[i + 1] && 0 <= j < |L[i]| ==> x in cl[L[i][j]].vertices
  }

  /**
   * One pivot: C becomes the cliques containing x; if x passes the test the
   * first and last classes of the run are split around C, otherwise the test
   * fails.
   */
  method PivotStep(cl: seq<Clique>, k: nat, L: seq<seq<int>>, x: int) returns (L': seq<seq<int>>, C: seq<int>, ok: bool)
    requires |cl| == k && IdsAreIndices(cl) && Partition(L, k)
    requires exists c :: 0 <= c < k && x in cl[c].vertices
    ensures C == Holders(cl, x, k)
    ensures ClassesBelow(L, k) && (ok <==> PivotAccepted(cl, L, x))
    ensures ok ==> Partition(L', k) && |L'| >= |L|
  {
    PartitionIndices(L, k);
    var flags;
    C, flags := MarkClasses(cl, L, x);
    assert flags == Marks(cl, L, x);
    var numOfChanges := CountChanges(flags);
    if numOfChanges >= 3 {
      return L, C, false;
    }
    MarkExists(cl, k, L, x);
    var La, Lb := FindBounds(flags);
    ok := AllInside(cl, L, La, Lb, C);
    InsideMeansAccepted(cl, L, x, flags, La, Lb, C, ok);
    if !ok {
      return L, C, false;
    }
    L' := SplitAround(cl, L, C, La, Lb);
    RefinedKeeps(L, k, SetOf(C), La, Lb);
  }

  /** A vertex of some clique marks the class holding that clique. */
  lemma MarkExists(cl: seq<Clique>, k: nat, L: seq<seq<int>>, x: int)
    requires |cl| == k && Partition(L, k)
    requires exists c :: 0 <= c < k && x in cl[c].vertices
    ensures forall c :: 0 <= c < |L| ==> IndicesBelow(L[c], |cl|)
    ensures exists i :: 0 <= i < |L| && Marks(cl, L, x)[i]
  {
    PartitionIndices(L, k);
    var c0 :| 0 <= c0 < k && x in cl[c0].vertices;
    PartitionCovers(L, k, c0);
    var i :| 0 <= i < |L| && c0 in L[i];
    var t :| 0 <= t < |L[i]| && L[i][t] == c0;
    assert HoldsBelow(cl, L[i], x, |cl|);
    assert Marks(cl, L, x)[i];
  }

  /** Under consecutive marks, the inner-class check is the second half of the pivot test. */
  lemma InsideMeansAccepted(cl: seq<Clique>, L: seq<seq<int>>, x: int, f: seq<bool>, La: int, Lb: int, C: seq<int>, ok: bool)
    requires ClassesBelow(L, |cl|)
    requires f == Marks(cl, L, x) && Consecutive(f) && C == Holders(cl, x, |cl|)
    requires 0 <= La <= Lb < |f| && forall i :: 0 <= i < |f| ==> (f[i] <==> La <= i <= Lb)
    requires ok <==> forall i, j :: La < i < Lb && 0 <= j < |L[i]| ==> L[i][j] in C
    ensures ok <==> PivotAccepted(cl, L, x)
  {
    if ok {
      forall i, j | 0 < i < |L| - 1 && f[i - 1] && f[i + 1] && 0 <= j < |L[i]|
        ensures x in cl[L[i][j]].vertices
      {
        assert La < i < Lb;
        assert L[i][j] in C;
      }
    }
    if PivotAccepted(cl, L, x) {
      forall i, j | La < i < Lb && 0 <= j < |L[i]|
        ensures L[i][j] in C
      {
        assert f[i - 1] && f[i + 1];
      }
    }
  }

  /** Number of vertices not yet processed. */
  function Unprocessed(p: seq<bool>): nat
  {
    if p == [] then 0 else Unprocessed(p[..|p| - 1]) + (if p[|p| - 1] then 0 else 1)
  }

  /** Marking an unprocessed vertex leaves fewer unprocessed ones. */
  lemma {:induction false} UnprocessedMark(p: seq<bool>, x: nat)
    requires x < |p| && !p[x]
    ensures Unprocessed(p[x := true]) < Unprocessed(p)
  {
    var q := p[x := true];
    if x == |p| - 1 {
      assert q[..|q| - 1] == p[..|p| - 1];
    } else {
      assert q[..|q| - 1] == p[..|p| - 1][x := true];
      UnprocessedMark(p[..|p| - 1], x);
    }
  }

  /**
   * Takes pivots off the stack until it is empty: processed ones are thrown
   * away, an unprocessed one is marked processed and put through the pivot
   * test. A failed test ends the consecutive-ones test.
   */
  method ProcessPivots(cl: seq<Clique>, k: nat, N: nat, L: seq<seq<int>>, pivots: seq<int>, processed: seq<bool>, C: seq<int>)
    returns (L': seq<seq<int>>, processed': seq<bool>, C': seq<int>, failed: bool)
    requires |cl| == k && IdsAreIndices(cl) && Partition(L, k)
    requires |processed| == N && PivotsOk(cl, pivots, N) && IndicesBelow(C, k)
    ensures |processed'| == N && IndicesBelow(C', k)
    ensures Partition(L', k) && |L'| >= |L| && ClassesBelow(L', k)
    ensures failed ==> exists x :: IsVertex(cl, x, N) && !PivotAccepted(cl, L', x)
  {
    L', processed', C', failed := L, processed, C, false;
    var pv := pivots;
    while |pv| > 0
      invariant Partition(L', k) && |L'| >= |L|
      invariant |processed'| == N && PivotsOk(cl, pv, N) && IndicesBelow(C', k)
      decreases Unprocessed(processed'), |pv|
    {
      while |pv| > 0 && processed'[pv[|pv| - 1]]
        invariant PivotsOk(cl, pv, N)
      {
        pv := pv[..|pv| - 1];
      }
      if |pv| == 0 {
        break;
      }
      var x := pv[|pv| - 1];
      UnprocessedMark(processed', x);
      processed' := processed'[x := true];
      var L2, ok;
      L2, C', ok := PivotStep(cl, k, L', x);
      if !ok {
        assert IsVertex(cl, x, N);
        failed := true;
        return;
      }
      L' := L2;
    }
    PartitionIndices(L', k);
  }

  // ---------------------------------------------------------------------
  // Cutting the clique-tree edges that leave C
  // ---------------------------------------------------------------------

  /** The entries of a that also occur in b, in a's order. */
  function Shared(a: seq<int>, b: seq<int>): seq<int>
  {
    if a == [] then [] else Shared(a[..|a| - 1], b) + (if a[|a| - 1] in b then [a[|a| - 1]] else [])
  }

  lemma {:induction false} SharedMember(a: seq<int>, b: seq<int>, v: int)
    ensures v in Shared(a, b) <==> v in a && v in b
  {
    if a != [] {
      SharedMember(a[..|a| - 1], b, v);
      assert a == a[..|a| - 1] + [a[|a| - 1]];
    }
  }

  lemma SharedStep(pivots: seq<int>, vs: seq<int>, b: seq<int>, index: nat, p1: seq<int>, p2: seq<int>)
    requires index < |vs| && p1 == pivots + Shared(vs[..index], b)
    requires p2 == p1 + (if vs[index] in b then [vs[index]] else [])
    ensures p2 == pivots + Shared(vs[..index + 1], b)
  {
    assert vs[..index + 1][..index] == vs[..index];
  }

  /** The tree edge from clique i to its parent is still there and has exactly one end in C. */
  predicate Crosses(tp: seq<int>, C: seq<int>, i: int)
    requires 0 <= i < |tp|
  {
    tp[i] != -1 && ((i in C) != (tp[i] in C))
  }

  /** The vertices pushed for the crossing edges among the first n cliques. */
  function CutPivots(cl: seq<Clique>, C: seq<int>, tp: seq<int>, n: nat): seq<int>
    requires n <= |tp| <= |cl| && ParentsBounded(tp, |cl|)
  {
    if n == 0 then []
    else CutPivots(cl, C, tp, n - 1) +
         (if Crosses(tp, C, n - 1) then Shared(cl[n - 1].vertices, cl[tp[n - 1]].vertices) else [])
  }

  /** A vertex is pushed exactly when it is shared by the two ends of a crossing edge. */
  lemma {:induction false} CutPivotsMember(cl: seq<Clique>, C: seq<int>, tp: seq<int>, n: nat, v: int)
    requires n <= |tp| <= |cl| && ParentsBounded(tp, |cl|)
    ensures v in CutPivots(cl, C, tp, n) <==>
            exists i :: 0 <= i < n && Crosses(tp, C, i) && v in cl[i].vertices && v in cl[tp[i]].vertices
  {
    if n > 0 {
      CutPivotsMember(cl, C, tp, n - 1, v);
      if Crosses(tp, C, n - 1) {
        SharedMember(cl[n - 1].vertices, cl[tp[n - 1]].vertices, v);
      }
    }
  }

  /** Number of tree edges left (entries other than -1). */
  function TreeEdges(tp: seq<int>): nat
  {
    if tp == [] then 0 else TreeEdges(tp[..|tp| - 1]) + (if tp[|tp| - 1] == -1 then 0 else 1)
  }

  /** Removing a tree edge leaves fewer. */
  lemma {:induction false} TreeEdgesCut(tp: seq<int>, i: nat)
    requires i < |tp| && tp[i] != -1
    ensures TreeEdges(tp[i := -1]) < TreeEdges(tp)
  {
    var q := tp[i := -1];
    if i == |tp| - 1 {
      assert q[..|q| - 1] == tp[..|tp| - 1];
    } else {
      assert q[..|q| - 1] == tp[..|tp| - 1][i := -1];
      TreeEdgesCut(tp[..|tp| - 1], i);
    }
  }

  /** Pushes, in order, the vertices of clique i that clique p also contains. */
  method PushShared(cl: seq<Clique>, i: nat, p: nat, pivots: seq<int>) returns (pivots': seq<int>)
    requires i < |cl| && p < |cl|
    ensures pivots' == pivots + Shared(cl[i].vertices, cl[p].vertices)
  {
    pivots' := pivots;
    var vs := cl[i].vertices;
    var index := 0;
    while index < |vs|
      invariant 0 <= index <= |vs|
      invariant pivots' == pivots + Shared(vs[..index], cl[p].vertices)
    {
      ghost var p1 := pivots';
      var holds := ContainsXasOneEntry(cl[p], vs[index]);
      if holds {
        pivots' := pivots' + [vs[index]];
      }
      SharedStep(pivots, vs, cl[p].vertices, index, p1, pivots');
      index := index + 1;
    }
    assert vs[..index] == vs;
  }

  /**
   * For each remaining tree edge between clique i and its parent with
   * exactly one end in C: pushes the vertices the two cliques share and
   * removes the edge. Membership in C is decided by identifier.
   */
  method CutTreeEdges(cl: seq<Clique>, C: seq<int>, tp: seq<int>, pivots: seq<int>) returns (tp': seq<int>, pivots': seq<int>)
    requires IdsAreIndices(cl) && IndicesBelow(C, |cl|) && |tp| == |cl| && ParentsBounded(tp, |cl|)
    ensures tp' == CutUpTo(tp, C, |tp|) && ParentsBounded(tp', |cl|)
    ensures pivots' == pivots + CutPivots(cl, C, tp, |tp|)
    ensures TreeEdges(tp') < TreeEdges(tp) || (tp' == tp && pivots' == pivots)
  {
    tp', pivots' := tp, pivots;
    assert tp == CutUpTo(tp, C, 0);
    for i := 0 to |tp|
      invariant tp' == CutUpTo(tp, C, i)
      invariant pivots' == pivots + CutPivots(cl, C, tp, i)
      invariant TreeEdges(tp') < TreeEdges(tp) || (tp' == tp && pivots' == pivots)
    {
      ghost var pv, tq := pivots', tp';
      tp', pivots' := CutEdge(cl, C, i, tp', pivots');
      CutStep(cl, C, tp, pivots, tq, pv, i, tp', pivots');
    }
    CutKeepsParents(tp, C, |cl|);
  }

  /** The tree parents after the first n edges were examined: the crossing ones are cut (-1). */
  function CutUpTo(tp: seq<int>, C: seq<int>, n: nat): (r: seq<int>)
    requires n <= |tp|
    ensures |r| == |tp|
    ensures forall j :: 0 <= j < |tp| ==> r[j] == if j < n && Crosses(tp, C, j) then -1 else tp[j]
  {
    seq(|tp|, j requires 0 <= j < |tp| => if j < n && Crosses(tp, C, j) then -1 else tp[j])
  }

  lemma CutKeepsParents(tp: seq<int>, C: seq<int>, k: int)
    requires ParentsBounded(tp, k)
    ensures ParentsBounded(CutUpTo(tp, C, |tp|), k)
  {
  }

  /** The loop invariant of the cut survives one edge. */
  lemma CutStep(cl: seq<Clique>, C: seq<int>, tp: seq<int>, pivots: seq<int>, tq: seq<int>, pv: seq<int>, i: nat,
                tq': seq<int>, pv': seq<int>)
    requires |tp| <= |cl| && ParentsBounded(tp, |cl|) && i < |tp| && tq == CutUpTo(tp, C, i)
    requires pv == pivots + CutPivots(cl, C, tp, i)
    requires TreeEdges(tq) < TreeEdges(tp) || (tq == tp && pv == pivots)
    requires tq' == if Crosses(tp, C, i) then tq[i := -1] else tq
    requires pv' == pv + if Crosses(tp, C, i) then Shared(cl[i].vertices, cl[tp[i]].vertices) else []
    ensures tq' == CutUpTo(tp, C, i + 1)
    ensures pv' == pivots + CutPivots(cl, C, tp, i + 1)
    ensures TreeEdges(tq') < TreeEdges(tp) || (tq' == tp && pv' == pivots)
  {
    CutUpToStep(tp, C, i, tq, tq');
    CutPivotsStep(cl, C, tp, pivots, pv, i, pv');
    if Crosses(tp, C, i) {
      TreeEdgesCut(tq, i);
    }
  }

  lemma CutUpToStep(tp: seq<int>, C: seq<int>, i: nat, tq: seq<int>, tq': seq<int>)
    requires i < |tp| && tq == CutUpTo(tp, C, i)
    requires tq' == if Crosses(tp, C, i) then tq[i := -1] else tq
    ensures tq' == CutUpTo(tp, C, i + 1)
  {
  }

  lemma CutPivotsStep(cl: seq<Clique>, C: seq<int>, tp: seq<int>, pivots: seq<int>, pv: seq<int>, i: nat, pv': seq<int>)
    requires i < |tp| <= |cl| && ParentsBounded(tp, |cl|)
    requires pv == pivots + CutPivots(cl, C, tp, i)
    requires pv' == pv + if Crosses(tp, C, i) then Shared(cl[i].vertices, cl[tp[i]].vertices) else []
    ensures pv' == pivots + CutPivots(cl, C, tp, i + 1)
  {
  }

  /** The loop body of the cut: tests the edge from clique i to its parent and cuts it when it crosses C. */
  method CutEdge(cl: seq<Clique>, C: seq<int>, i: nat, tp: seq<int>, pivots: seq<int>) returns (tp': seq<int>, pivots': seq<int>)
    requires IdsAreIndices(cl) && IndicesBelow(C, |cl|) && i < |tp| == |cl| && ParentsBounded(tp, |cl|)
    ensures tp' == if Crosses(tp, C, i) then tp[i := -1] else tp
    ensures pivots' == pivots + if Crosses(tp, C, i) then Shared(cl[i].vertices, cl[tp[i]].vertices) else []
  {
    tp', pivots' := tp, pivots;
    if tp[i] == -1 {
      return;
    }
    var a := DoesClassContainClique(cl, C, i);
    var b := DoesClassContainClique(cl, C, tp[i]);
    if (a && !b) || (!a && b) {
      pivots' := PushShared(cl, i, tp[i], pivots);
      tp' := tp[i := -1];
    }
  }

  /** The pushed vertices are vertices of cliques, hence valid pivots. */
  lemma CutPivotsOk(cl: seq<Clique>, C: seq<int>, tp: seq<int>, pivots: seq<int>, N: nat)
    requires |tp| <= |cl| && ParentsBounded(tp, |cl|) && VerticesBelow(cl, N) && PivotsOk(cl, pivots, N)
    ensures PivotsOk(cl, pivots + CutPivots(cl, C, tp, |tp|), N)
  {
    var ps := pivots + CutPivots(cl, C, tp, |tp|);
    forall t | |pivots| <= t < |ps| ensures IsVertex(cl, ps[t], N) {
      var v := ps[t];
      assert v in CutPivots(cl, C, tp, |tp|);
      CutPivotsMember(cl, C, tp, |tp|, v);
      var i :| 0 <= i < |tp| && Crosses(tp, C, i) && v in cl[i].vertices && v in cl[tp[i]].vertices;
      var u :| 0 <= u < |cl[i].vertices| && cl[i].vertices[u] == v;
    }
  }

  // ---------------------------------------------------------------------
  // The refinement loop
  // ---------------------------------------------------------------------

  /** A partition into as many classes as cliques has singleton classes only. */
  lemma AllSingletons(L: seq<seq<int>>, k: nat)
    requires Partition(L, k) && |L| == k
    ensures forall c :: 0 <= c < |L| ==> |L[c]| == 1
  {
    assert |Flatten(L)| == |multiset(Flatten(L))| == |multiset(Range(k))| == k;
    forall c | 0 <= c < |L| ensures |L[c]| == 1 {
      if |L[c]| > 1 {
        FlattenLengthMore(L, c);
      }
    }
  }

  lemma {:induction false} FlattenLengthMore(L: seq<seq<int>>, c: nat)
    requires c < |L| && |L[c]| > 1 && forall d :: 0 <= d < |L| ==> L[d] != []
    ensures |Flatten(L)| > |L|
  {
    if c == 0 {
      FlattenLengthAtLeast(L[1..]);
    } else {
      FlattenLengthMore(L[1..], c - 1);
    }
  }

  /**
   * Phase two on the numbered cliques: starting from one class of all
   * cliques, splits off the greatest-numbered clique when no pivot is
   * pending, otherwise processes the pivots, and after either cuts the tree
   * edges leaving C. Succeeds when every class is a singleton; on success
   * the classes list the cliques in the order found.
   */
  method RefineClasses(cl: seq<Clique>, N: nat, tp0: seq<int>) returns (ok: bool, L: seq<seq<int>>)
    requires IdsAreIndices(cl) && VerticesBelow(cl, N)
    requires |tp0| == |cl| && ParentsBounded(tp0, |cl|)
    ensures |cl| > 0 && ok ==> Partition(L, |cl|) && |L| == |cl| && forall c :: 0 <= c < |L| ==> |L[c]| == 1
    ensures !ok ==> ClassesBelow(L, |cl|) && exists x :: IsVertex(cl, x, N) && !PivotAccepted(cl, L, x)
  {
    var k := |cl|;
    var cliqueClass: seq<int> := [];
    for index := 0 to k
      invariant cliqueClass == Range(index)
    {
      cliqueClass := cliqueClass + [index];
    }
    L := [cliqueClass];
    assert Flatten(L) == cliqueClass + Flatten([]);
    var pivots: seq<int> := [];
    var processed := seq(N, _ => false);
    var C: seq<int> := [];
    var tp := tp0;
    while |L| < k
      invariant |L| >= 1 && (k > 0 ==> Partition(L, k))
      invariant |tp| == k && ParentsBounded(tp, k)
      invariant |processed| == N && PivotsOk(cl, pivots, N) && IndicesBelow(C, k)
      decreases k - |L|, TreeEdges(tp), if pivots == [] then 0 else 1
    {
      if |pivots| == 0 {
        L, C := SplitOffGreatest(cl, L, k);
      } else {
        var failed;
        L, processed, C, failed := ProcessPivots(cl, k, N, L, pivots, processed, C);
        if failed {
          return false, L;
        }
        pivots := [];
      }
      CutPivotsOk(cl, C, tp, pivots, N);
      tp, pivots := CutTreeEdges(cl, C, tp, pivots);
      PartitionSize(L, k);
    }
    if k > 0 {
      PartitionSize(L, k);
      AllSingletons(L, k);
    }
    return true, L;
  }
}
