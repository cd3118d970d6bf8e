/**
  sort_by_degree: a list of vertices reordered by non-increasing degree,
  keeping the order of vertices of equal degree.  The program pairs each
  vertex with its out-degree, sorts the pairs with std::list::sort (a stable
  sort) under "a.second > b.second", and reads the vertices back.
*/
module DegreeSort {
  import opened Seqs
  import opened RBGraphCore

  /** A vertex and its degree: std::pair<RBVertex, int>. */
  type Entry = (string, int)

  /** The entries in order of non-increasing degree. */
  ghost predicate ByDegree(s: seq<Entry>)
  {
    forall i, j :: 0 <= i < j < |s| ==> s[i].1 >= s[j].1
  }

  /** e placed after every leading entry whose degree is not smaller. */
  function Insert(s: seq<Entry>, e: Entry): seq<Entry>
  {
    if s == [] then [e]
    else if s[0].1 >= e.1 then [s[0]] + Insert(s[1..], e)
    else [e] + s
  }

  /** std::list::sort with the comparator a.second > b.second: stable insertion, left to right. */
  function StableSort(s: seq<Entry>): seq<Entry>
  {
    if s == [] then [] else Insert(StableSort(s[..|s| - 1]), s[|s| - 1])
  }

  /** The entries of degree d, in order. */
  function WithDegree(s: seq<Entry>, d: int): seq<Entry>
  {
    if s == [] then [] else (if s[0].1 == d then [s[0]] else []) + WithDegree(s[1..], d)
  }

  /** The vertices of the entries, in order. */
  function Firsts(s: seq<Entry>): (r: seq<string>)
    ensures |r| == |s| && forall k :: 0 <= k < |s| ==> r[k] == s[k].0
  {
    seq(|s|, k requires 0 <= k < |s| => s[k].0)
  }

  /** Each vertex of vs with its degree in G. */
  function Pairs(G: Graph, vs: seq<string>): (r: seq<Entry>)
    ensures |r| == |vs| && forall k :: 0 <= k < |vs| ==> r[k] == (vs[k], Degree(G, vs[k]))
  {
    seq(|vs|, k requires 0 <= k < |vs| => (vs[k], Degree(G, vs[k])))
  }

  /** The vertices of vs whose degree in G is d, in order. */
  function KeepDegree(G: Graph, vs: seq<string>, d: int): seq<string>
  {
    if vs == [] then [] else (if Degree(G, vs[0]) == d then [vs[0]] else []) + KeepDegree(G, vs[1..], d)
  }

  //---------------------------------------------------------------------------
  // Insert

  /** Inserting adds e once and nothing else. */
  lemma {:induction false} InsertMultiset(s: seq<Entry>, e: Entry)
    ensures multiset(Insert(s, e)) == multiset(s) + multiset{e}
  {
    if s != [] && s[0].1 >= e.1 {
      Cons(s);
      InsertMultiset(s[1..], e);
    }
  }

  /** The same for the vertices of the entries. */
  lemma {:induction false} InsertFirsts(s: seq<Entry>, e: Entry)
    ensures multiset(Firsts(Insert(s, e))) == multiset(Firsts(s)) + multiset{e.0}
  {
    if s != [] && s[0].1 >= e.1 {
      var t := s[1..];
      Cons(s);
      InsertFirsts(t, e);
      FirstsCons(s[0], Insert(t, e));
      FirstsCons(s[0], t);
    } else if s != [] {
      FirstsCons(e, s);
    } else {
      FirstsCons(e, []);
    }
  }

  lemma FirstsCons(x: Entry, s: seq<Entry>)
    ensures Firsts([x] + s) == [x.0] + Firsts(s)
  {
  }

  /** Inserting into a list ordered by degree keeps it ordered. */
  lemma {:induction false} InsertOrdered(s: seq<Entry>, e: Entry)
    requires ByDegree(s)
    ensures ByDegree(Insert(s, e))
  {
    if s != [] && s[0].1 >= e.1 {
      var t := s[1..];
      TailByDegree(s);
      InsertOrdered(t, e);
      InsertMultiset(t, e);
      var r := Insert(t, e);
      forall x | x in r ensures x.1 <= s[0].1 {
        assert x in multiset(r);
        if x != e {
          var k :| 0 <= k < |t| && t[k] == x;
          assert s[k + 1] == x;
        }
      }
      ConsByDegree(s[0], r);
    } else if s != [] {
      ConsByDegree(e, s);
    }
  }

  /** Inserting puts e after the entries of its degree and before the rest of the list. */
  lemma {:induction false} InsertWithDegree(s: seq<Entry>, e: Entry, d: int)
    requires ByDegree(s)
    ensures WithDegree(Insert(s, e), d) == WithDegree(s, d) + (if e.1 == d then [e] else [])
  {
    if s == [] {
      assert Insert(s, e) == [e] && [e][1..] == [];
    } else if s[0].1 >= e.1 {
      var t := s[1..];
      TailByDegree(s);
      InsertWithDegree(t, e, d);
      var r := Insert(t, e);
      assert Insert(s, e) == [s[0]] + r;
      assert ([s[0]] + r)[0] == s[0] && ([s[0]] + r)[1..] == r;
      Associative(if s[0].1 == d then [s[0]] else [], WithDegree(t, d), if e.1 == d then [e] else []);
    } else {
      assert Insert(s, e) == [e] + s;
      assert ([e] + s)[0] == e && ([e] + s)[1..] == s;
      if e.1 == d {
        NoneOfDegree(s, d);
      }
    }
  }

  lemma TailByDegree(s: seq<Entry>)
    requires ByDegree(s) && s != []
    ensures ByDegree(s[1..])
  {
    var t := s[1..];
    forall i, j | 0 <= i < j < |t| ensures t[i].1 >= t[j].1 {
      assert t[i] == s[i + 1] && t[j] == s[j + 1];
    }
  }

  /** x before a list ordered by degree whose every entry has degree at most x's. */
  lemma ConsByDegree(x: Entry, s: seq<Entry>)
    requires ByDegree(s) && forall y :: y in s ==> y.1 <= x.1
    ensures ByDegree([x] + s)
  {
    var r := [x] + s;
    forall i, j | 0 <= i < j < |r| ensures r[i].1 >= r[j].1 {
      assert r[j] == s[j - 1];
      if i > 0 {
        assert r[i] == s[i - 1];
      }
    }
  }

  /** An ordered list starting below d has no entry of degree d. */
  lemma {:induction false} NoneOfDegree(s: seq<Entry>, d: int)
    requires ByDegree(s) && (s != [] ==> s[0].1 < d)
    ensures WithDegree(s, d) == []
  {
    if s != [] {
      var t := s[1..];
      TailByDegree(s);
      if t != [] {
        assert t[0] == s[1];
      }
      NoneOfDegree(t, d);
    }
  }

  //---------------------------------------------------------------------------
  // StableSort

  lemma {:induction false} WithDegreeAppend(a: seq<Entry>, b: seq<Entry>, d: int)
    ensures WithDegree(a + b, d) == WithDegree(a, d) + WithDegree(b, d)
  {
    if a == [] {
      assert a + b == b;
    } else {
      assert (a + b)[0] == a[0] && (a + b)[1..] == a[1..] + b;
      WithDegreeAppend(a[1..], b, d);
      Associative(if a[0].1 == d then [a[0]] else [], WithDegree(a[1..], d), WithDegree(b, d));
    }
  }

  /** The sort orders the entries by non-increasing degree. */
  lemma {:induction false} StableSortOrders(s: seq<Entry>)
    ensures ByDegree(StableSort(s))
  {
    if s != [] {
      StableSortOrders(s[..|s| - 1]);
      InsertOrdered(StableSort(s[..|s| - 1]), s[|s| - 1]);
    }
  }

  /** The sort is a permutation, of the entries and so of their vertices. */
  lemma {:induction false} StableSortPermutes(s: seq<Entry>)
    ensures multiset(StableSort(s)) == multiset(s)
    ensures multiset(Firsts(StableSort(s))) == multiset(Firsts(s))
  {
    if s != [] {
      var init, e := s[..|s| - 1], s[|s| - 1];
      Snoc(s);
      StableSortPermutes(init);
      InsertMultiset(StableSort(init), e);
      InsertFirsts(StableSort(init), e);
      assert Firsts(s) == Firsts(init) + [e.0];
    }
  }

  /** The sort is stable: the entries of each degree keep their order. */
  lemma {:induction false} StableSortKeepsTies(s: seq<Entry>, d: int)
    ensures WithDegree(StableSort(s), d) == WithDegree(s, d)
  {
    if s != [] {
      var init, e := s[..|s| - 1], s[|s| - 1];
      Snoc(s);
      StableSortKeepsTies(init, d);
      StableSortOrders(init);
      InsertWithDegree(StableSort(init), e, d);
      WithDegreeAppend(init, [e], d);
      assert [e][1..] == [];
    }
  }

  //---------------------------------------------------------------------------
  // From entries back to vertices

  /** Entries that pair each vertex with its degree in G. */
  ghost predicate Consistent(G: Graph, s: seq<Entry>)
  {
    forall e :: e in s ==> e.1 == Degree(G, e.0)
  }

  lemma {:induction false} FirstsWithDegree(G: Graph, s: seq<Entry>, d: int)
    requires Consistent(G, s)
    ensures Firsts(WithDegree(s, d)) == KeepDegree(G, Firsts(s), d)
  {
    if s != [] {
      var f := Firsts(s);
      assert f[0] == s[0].0 && f[1..] == Firsts(s[1..]);
      assert s[0] in s;
      FirstsWithDegree(G, s[1..], d);
      var h: seq<Entry> := if s[0].1 == d then [s[0]] else [];
      assert Firsts(h + WithDegree(s[1..], d)) == Firsts(h) + Firsts(WithDegree(s[1..], d));
    }
  }

  lemma KeepDegreeOfPairs(G: Graph, vs: seq<string>)
    ensures Firsts(Pairs(G, vs)) == vs && Consistent(G, Pairs(G, vs))
  {
  }

  /**
    The list sort_by_degree leaves: the same vertices, by non-increasing
    degree, with the vertices of each degree in their old order.
  */
  lemma SortedVertices(G: Graph, vs: seq<string>)
    ensures var r := Firsts(StableSort(Pairs(G, vs)));
      && multiset(r) == multiset(vs)
      && (forall i, j :: 0 <= i < j < |r| ==> Degree(G, r[i]) >= Degree(G, r[j]))
      && (forall d :: KeepDegree(G, r, d) == KeepDegree(G, vs, d))
  {
    var P := Pairs(G, vs);
    var S := StableSort(P);
    StableSortOrders(P);
    StableSortPermutes(P);
    KeepDegreeOfPairs(G, vs);
    assert Consistent(G, S) by {
      forall e | e in S ensures e.1 == Degree(G, e.0) {
        assert e in multiset(P);
      }
    }
    var r := Firsts(S);
    forall i, j | 0 <= i < j < |r| ensures Degree(G, r[i]) >= Degree(G, r[j]) {
      assert S[i] in S && S[j] in S;
    }
    forall d ensures KeepDegree(G, r, d) == KeepDegree(G, vs, d) {
      StableSortKeepsTies(P, d);
      FirstsWithDegree(G, S, d);
      FirstsWithDegree(G, P, d);
    }
  }

  //---------------------------------------------------------------------------
  // sort_by_degree

  /** sort_by_degree(list, g): pair, sort, read back. */
  method SortByDegree(G: Graph, list: seq<string>) returns (sorted: seq<string>)
    ensures multiset(sorted) == multiset(list)
    ensures forall i, j :: 0 <= i < j < |sorted| ==> Degree(G, sorted[i]) >= Degree(G, sorted[j])
    ensures forall d :: KeepDegree(G, sorted, d) == KeepDegree(G, list, d)
  {
    var pairs: seq<Entry> := [];
    var i := 0;
    while i < |list|
      invariant 0 <= i <= |list| && pairs == Pairs(G, list[..i])
    {
      pairs := pairs + [(list[i], Degree(G, list[i]))];
      i := i + 1;
    }
    assert list[..i] == list;
    var ordered := StableSort(pairs);
    sorted := [];
    var j := 0;
    while j < |ordered|
      invariant 0 <= j <= |ordered| && sorted == Firsts(ordered[..j])
    {
      sorted := sorted + [ordered[j].0];
      j := j + 1;
    }
    assert ordered[..j] == ordered;
    SortedVertices(G, list);
  }
}
