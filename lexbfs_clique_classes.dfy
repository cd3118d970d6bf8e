/**
 * The ordered list of clique classes refined by the second phase of the
 * consecutive-ones test (Algorithm 8 of Habib, McConnell, Paul and
 * Viennot). A class is a list of clique indices; the source holds pointers
 * into the matrix's clique vector, which is never resized while the list
 * exists, so an index names the same clique a pointer would.
 */
module LexCliqueClasses {
  import opened Seqs
  import opened LexClique

  /** Cliques carry their own index as identifier (phase one sets this). */
  predicate IdsAreIndices(cl: seq<Clique>)
  {
    forall c :: 0 <= c < |cl| ==> cl[c].id == c
  }

  /** Every entry of the class is a clique index. */
  predicate IndicesBelow(cls: seq<int>, k: int)
  {
    forall t :: 0 <= t < |cls| ==> 0 <= cls[t] < k
  }

  /** Every vertex of every clique is an unsigned value below `n`. */
  predicate VerticesBelow(cl: seq<Clique>, n: int)
  {
    forall c, t :: 0 <= c < |cl| && 0 <= t < |cl[c].vertices| ==> 0 <= cl[c].vertices[t] < n
  }

  /** Tree parents are -1 or column indices. */
  predicate ParentsBounded(tp: seq<int>, k: int)
  {
    forall c :: 0 <= c < |tp| ==> tp[c] == -1 || 0 <= tp[c] < k
  }

  /** Whether some clique of the class carries the identifier, by linear search. */
  method DoesClassContainClique(cl: seq<Clique>, cliqueClass: seq<int>, cliqueID: int) returns (r: bool)
    requires IndicesBelow(cliqueClass, |cl|)
    ensures r <==> exists t :: 0 <= t < |cliqueClass| && cl[cliqueClass[t]].id == cliqueID
    ensures IdsAreIndices(cl) ==> (r <==> cliqueID in cliqueClass)
  {
    var i := 0;
    while i < |cliqueClass|
      invariant 0 <= i <= |cliqueClass|
      invariant forall t :: 0 <= t < i ==> cl[cliqueClass[t]].id != cliqueID
    {
      if cl[cliqueClass[i]].id == cliqueID {
        return true;
      }
      i := i + 1;
    }
    return false;
  }

  /** Every value of the class lies in the set S. */
  function SetOf(C: seq<int>): set<int>
  {
    set t | t in C
  }

  /** L lists each clique index 0..k-1 exactly once, in non-empty classes. */
  predicate Partition(L: seq<seq<int>>, k: nat)
  {
    && multiset(Flatten(L)) == multiset(Range(k))
    && forall c :: 0 <= c < |L| ==> L[c] != []
  }

  /** The classes of a partition hold clique indices only. */
  lemma PartitionIndices(L: seq<seq<int>>, k: nat)
    requires Partition(L, k)
    ensures forall c :: 0 <= c < |L| ==> IndicesBelow(L[c], k)
  {
    forall c, t | 0 <= c < |L| && 0 <= t < |L[c]| ensures 0 <= L[c][t] < k {
      FlattenMember(L, c, t);
      assert L[c][t] in multiset(Flatten(L));
      RangeCount(k, L[c][t]);
    }
  }

  /** Every clique index sits in some class. */
  lemma PartitionCovers(L: seq<seq<int>>, k: nat, v: int)
    requires Partition(L, k) && 0 <= v < k
    ensures exists c :: 0 <= c < |L| && v in L[c]
  {
    RangeCount(k, v);
    assert v in multiset(Flatten(L));
    FlattenMemberInv(L, v);
  }

  lemma {:induction false} FlattenMemberInv(L: seq<seq<int>>, v: int)
    requires v in Flatten(L)
    ensures exists c :: 0 <= c < |L| && v in L[c]
  {
    if v !in L[0] {
      FlattenMemberInv(L[1..], v);
      var c :| 0 <= c < |L[1..]| && v in L[1..][c];
      assert v in L[c + 1];
    }
  }

  /** A partition of k cliques into non-empty classes has at most k classes. */
  lemma PartitionSize(L: seq<seq<int>>, k: nat)
    requires Partition(L, k)
    ensures |L| <= k
  {
    assert |Flatten(L)| == |multiset(Flatten(L))| == |multiset(Range(k))| == k;
    FlattenLengthAtLeast(L);
  }

  lemma {:induction false} FlattenLengthAtLeast(L: seq<seq<int>>)
    requires forall c :: 0 <= c < |L| ==> L[c] != []
    ensures |Flatten(L)| >= |L|
  {
    if L != [] {
      FlattenLengthAtLeast(L[1..]);
    }
  }

  /** Fewer classes than cliques: some class has two or more members. */
  lemma NonSingletonExists(L: seq<seq<int>>, k: nat)
    requires Partition(L, k) && |L| < k
    ensures exists c :: 0 <= c < |L| && |L[c]| > 1
  {
    assert |Flatten(L)| == k by {
      assert |multiset(Flatten(L))| == |multiset(Range(k))|;
    }
    if forall c :: 0 <= c < |L| ==> |L[c]| <= 1 {
      FlattenLengthAtMost(L);
    }
  }

  lemma {:induction false} FlattenLengthAtMost(L: seq<seq<int>>)
    requires forall c :: 0 <= c < |L| ==> |L[c]| <= 1
    ensures |Flatten(L)| <= |L|
  {
    if L != [] {
      FlattenLengthAtMost(L[1..]);
    }
  }

  /** Replacing class p by A trades the members of L[p] for those of A. */
  lemma FlattenUpdate(L: seq<seq<int>>, p: nat, A: seq<int>)
    requires p < |L|
    ensures multiset(Flatten(L[p := A])) + multiset(L[p]) == multiset(Flatten(L)) + multiset(A)
  {
    FlattenSplit(L, p, L[p]);
    FlattenSplit(L[p := A], p, A);
    assert L[p := A][..p] == L[..p] && L[p := A][p + 1..] == L[p + 1..];
  }

  lemma FlattenSplit(L: seq<seq<int>>, p: nat, A: seq<int>)
    requires p < |L| && L[p] == A
    ensures Flatten(L) == Flatten(L[..p]) + A + Flatten(L[p + 1..])
  {
    assert L == L[..p] + [A] + L[p + 1..];
    FlattenAppend(L[..p] + [A], L[p + 1..]);
    FlattenAppend(L[..p], [A]);
    assert Flatten([A]) == A + Flatten([]);
  }

  /** Inserting class A at position p adds its members. */
  lemma FlattenInsert(L: seq<seq<int>>, p: nat, A: seq<int>)
    requires p <= |L|
    ensures multiset(Flatten(L[..p] + [A] + L[p..])) == multiset(Flatten(L)) + multiset(A)
  {
    assert L == L[..p] + L[p..];
    FlattenAppend(L[..p], L[p..]);
    FlattenAppend(L[..p] + [A], L[p..]);
    FlattenAppend(L[..p], [A]);
    assert Flatten([A]) == A + Flatten([]);
  }

  /** The classes of L that are not empty, in order. */
  function NonEmpty(L: seq<seq<int>>): (r: seq<seq<int>>)
    ensures forall c :: 0 <= c < |r| ==> r[c] != []
  {
    if L == [] then []
    else NonEmpty(L[..|L| - 1]) + (if L[|L| - 1] == [] then [] else [L[|L| - 1]])
  }

  lemma {:induction false} NonEmptyAppend(A: seq<seq<int>>, B: seq<seq<int>>)
    ensures NonEmpty(A + B) == NonEmpty(A) + NonEmpty(B)
  {
    if B == [] {
      assert A + B == A;
    } else {
      assert (A + B)[..|A + B| - 1] == A + B[..|B| - 1];
      NonEmptyAppend(A, B[..|B| - 1]);
    }
  }

  /** Dropping empty classes changes neither members nor order. */
  lemma {:induction false} NonEmptyFlatten(L: seq<seq<int>>)
    ensures Flatten(NonEmpty(L)) == Flatten(L)
  {
    if L != [] {
      var init, l := L[..|L| - 1], L[|L| - 1];
      NonEmptyFlatten(init);
      assert L == init + [l];
      FlattenAppend(init, [l]);
      FlattenAppend(NonEmpty(init), if l == [] then [] else [l]);
      assert Flatten([l]) == l + Flatten([]);
    }
  }

  /** Without empty classes there is nothing to drop. */
  lemma {:induction false} NonEmptyKeepsAll(L: seq<seq<int>>)
    requires forall c :: 0 <= c < |L| ==> L[c] != []
    ensures NonEmpty(L) == L
  {
    if L != [] {
      NonEmptyKeepsAll(L[..|L| - 1]);
    }
  }

  /** The number of non-empty classes of L. */
  function Classes(L: seq<seq<int>>): nat
  {
    |NonEmpty(L)|
  }

  lemma ClassesUpdate(L: seq<seq<int>>, p: nat, A: seq<int>)
    requires p < |L|
    ensures Classes(L[p := A]) + (if L[p] == [] then 0 else 1) == Classes(L) + (if A == [] then 0 else 1)
  {
    assert L == L[..p] + [L[p]] + L[p + 1..];
    assert L[p := A] == L[..p] + [A] + L[p + 1..];
    NonEmptyAppend(L[..p] + [L[p]], L[p + 1..]);
    NonEmptyAppend(L[..p], [L[p]]);
    NonEmptyAppend(L[..p] + [A], L[p + 1..]);
    NonEmptyAppend(L[..p], [A]);
    assert [L[p]][..0] == [] && [A][..0] == [];
  }

  lemma ClassesInsert(L: seq<seq<int>>, p: nat, A: seq<int>)
    requires p <= |L|
    ensures Classes(L[..p] + [A] + L[p..]) == Classes(L) + (if A == [] then 0 else 1)
  {
    assert L == L[..p] + L[p..];
    NonEmptyAppend(L[..p], L[p..]);
    NonEmptyAppend(L[..p] + [A], L[p..]);
    NonEmptyAppend(L[..p], [A]);
    assert [A][..0] == [];
  }

  /** Removes the empty classes, scanning left to right and erasing in place. */
  method RemoveEmptyClasses(L: seq<seq<int>>) returns (L': seq<seq<int>>)
    ensures L' == NonEmpty(L)
  {
    L' := L;
    var i := 0;
    ghost var done := 0;
    while i < |L'|
      invariant 0 <= done <= |L|
      invariant L' == NonEmpty(L[..done]) + L[done..]
      invariant i == |NonEmpty(L[..done])|
      decreases |L| - done
    {
      RemoveEmptyStep(L, done, L', i);
      if |L'[i]| == 0 {
        L' := L'[..i] + L'[i + 1..];
      } else {
        i := i + 1;
      }
      done := done + 1;
    }
    assert L[..done] == L;
  }

  /** One step of the scan: an empty class is erased, any other kept. */
  lemma RemoveEmptyStep(L: seq<seq<int>>, done: nat, L': seq<seq<int>>, i: nat)
    requires done < |L| && L' == NonEmpty(L[..done]) + L[done..] && i == |NonEmpty(L[..done])|
    ensures i < |L'| && L'[i] == L[done]
    ensures L'[i] == [] ==> L'[..i] + L'[i + 1..] == NonEmpty(L[..done + 1]) + L[done + 1..]
    ensures L'[i] != [] ==> L' == NonEmpty(L[..done + 1]) + L[done + 1..] && i + 1 == |NonEmpty(L[..done + 1])|
  {
    assert L[..done + 1][..done] == L[..done];
    assert L[done..] == [L[done]] + L[done + 1..];
  }

  /** Index of the first class with more than one member, or -1. */
  method FindNonSingleton(L: seq<seq<int>>) returns (idx: int)
    ensures idx == -1 <==> forall c :: 0 <= c < |L| ==> |L[c]| <= 1
    ensures idx != -1 ==> 0 <= idx < |L| && |L[idx]| > 1 && forall c :: 0 <= c < idx ==> |L[c]| <= 1
  {
    var i := 0;
    while i < |L|
      invariant 0 <= i <= |L|
      invariant forall c :: 0 <= c < i ==> |L[c]| <= 1
    {
      if |L[i]| > 1 {
        return i;
      }
      i := i + 1;
    }
    return -1;
  }

  /** Position in the class of the clique with the greatest number (the first, on ties). */
  method GreatestNumbered(cl: seq<Clique>, cls: seq<int>) returns (g: nat)
    requires cls != [] && IndicesBelow(cls, |cl|)
    ensures g < |cls|
    ensures forall t :: 0 <= t < |cls| ==> cl[cls[t]].number <= cl[cls[g]].number
    ensures forall t :: 0 <= t < g ==> cl[cls[t]].number < cl[cls[g]].number
  {
    g := 0;
    var i := 1;
    while i < |cls|
      invariant 1 <= i <= |cls| && g < i
      invariant forall t :: 0 <= t < i ==> cl[cls[t]].number <= cl[cls[g]].number
      invariant forall t :: 0 <= t < g ==> cl[cls[t]].number < cl[cls[g]].number
    {
      if cl[cls[i]].number > cl[cls[g]].number {
        g := i;
      }
      i := i + 1;
    }
  }

  /** Cancelling a common part of two multiset sums. */
  lemma MultisetCancel(a: multiset<int>, b: multiset<int>, c: multiset<int>, d: multiset<int>, e: multiset<int>)
    requires a + b == c + d && b == d + e
    ensures a + e == c
  {
    forall v ensures (a + e)[v] == c[v] {
      assert (a + b)[v] == (c + d)[v];
    }
  }

  /** Moving member g of class p into a class of its own, right after p, keeps a partition. */
  lemma SplitOffKeeps(L: seq<seq<int>>, k: nat, p: nat, g: nat, L1: seq<seq<int>>, L2: seq<seq<int>>)
    requires Partition(L, k) && p < |L| && g < |L[p]| && |L[p]| > 1
    requires L1 == L[p := L[p][..g] + L[p][g + 1..]]
    requires L2 == L1[..p + 1] + [[L[p][g]]] + L1[p + 1..]
    ensures Partition(L2, k) && |L2| == |L| + 1
  {
    SplitOffMembers(L, p, g, L1, L2);
    SplitOffNonEmpty(L, p, g, L1, L2);
  }

  lemma SplitOffMembers(L: seq<seq<int>>, p: nat, g: nat, L1: seq<seq<int>>, L2: seq<seq<int>>)
    requires p < |L| && g < |L[p]|
    requires L1 == L[p := L[p][..g] + L[p][g + 1..]]
    requires L2 == L1[..p + 1] + [[L[p][g]]] + L1[p + 1..]
    ensures multiset(Flatten(L2)) == multiset(Flatten(L))
  {
    var rest := L[p][..g] + L[p][g + 1..];
    assert L[p] == L[p][..g] + [L[p][g]] + L[p][g + 1..];
    assert multiset(L[p]) == multiset(rest) + multiset([L[p][g]]);
    FlattenUpdate(L, p, rest);
    FlattenInsert(L1, p + 1, [L[p][g]]);
    MultisetCancel(multiset(Flatten(L1)), multiset(L[p]), multiset(Flatten(L)), multiset(rest), multiset([L[p][g]]));
  }

  lemma SplitOffNonEmpty(L: seq<seq<int>>, p: nat, g: nat, L1: seq<seq<int>>, L2: seq<seq<int>>)
    requires (forall c :: 0 <= c < |L| ==> L[c] != []) && p < |L| && g < |L[p]| && |L[p]| > 1
    requires L1 == L[p := L[p][..g] + L[p][g + 1..]]
    requires L2 == L1[..p + 1] + [[L[p][g]]] + L1[p + 1..]
    ensures (forall c :: 0 <= c < |L2| ==> L2[c] != []) && |L2| == |L| + 1
  {
    assert L1[p] != [];
    forall c | 0 <= c < |L2| ensures L2[c] != [] {
      if c < p + 1 {
        assert L2[c] == L1[c];
      } else if c > p + 1 {
        assert L2[c] == L1[c - 1];
      }
    }
  }

  /**
   * With no pivot pending: the first non-singleton class Lc loses its clique
   * Cl with the greatest number, which becomes the class {Cl} right after Lc.
   * Returns the new list and C = [Cl].
   */
  method SplitOffGreatest(cl: seq<Clique>, L: seq<seq<int>>, k: nat) returns (L': seq<seq<int>>, C: seq<int>)
    requires |cl| == k && Partition(L, k) && |L| < k
    ensures Partition(L', k) && |L'| == |L| + 1
    ensures |C| == 1 && IndicesBelow(C, k)
    ensures exists p, g :: SplitOffAt(cl, L, p, g, L', C)
  {
    NonSingletonExists(L, k);
    PartitionIndices(L, k);
    var p := FindNonSingleton(L);
    var g := GreatestNumbered(cl, L[p]);
    var Cl := L[p][g];
    var L1 := L[p := L[p][..g] + L[p][g + 1..]];
    C := [Cl];
    L' := L1[..p + 1] + [C] + L1[p + 1..];
    SplitOffKeeps(L, k, p, g, L1, L');
    NonEmptyKeepsAll(L');
    L' := RemoveEmptyClasses(L');
    assert SplitOffAt(cl, L, p, g, L', C);
  }

  /**
   * L' is L with member g of class p, the first class with two or more
   * members, moved into the class C of its own right after p; that member
   * carries the greatest number of its class.
   */
  ghost predicate SplitOffAt(cl: seq<Clique>, L: seq<seq<int>>, p: int, g: int, L': seq<seq<int>>, C: seq<int>)
  {
    && 0 <= p < |L| && |L[p]| > 1 && (forall c :: 0 <= c < p ==> |L[c]| <= 1)
    && 0 <= g < |L[p]| && C == [L[p][g]] && IndicesBelow(L[p], |cl|)
    && (forall t :: 0 <= t < |L[p]| ==> cl[L[p][t]].number <= cl[L[p][g]].number)
    && L' == L[..p] + [L[p][..g] + L[p][g + 1..], C] + L[p + 1..]
  }
}
