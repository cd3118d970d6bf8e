/** Sequence facts shared by the models: index ranges, flattening and counting. */
module Seqs {

  /** The vertex numbers 0, 1, ..., n-1 in increasing order. */
  function Range(n: nat): (r: seq<int>)
    ensures |r| == n
  {
    if n == 0 then [] else Range(n - 1) + [n - 1]
  }

  lemma {:induction false} RangeIndex(n: nat, k: nat)
    requires k < n
    ensures Range(n)[k] == k
  {
    if k < n - 1 {
      RangeIndex(n - 1, k);
    }
  }

  lemma {:induction false} RangeCount(n: nat, x: int)
    ensures multiset(Range(n))[x] == if 0 <= x < n then 1 else 0
  {
    if n > 0 {
      RangeCount(n - 1, x);
    }
  }

  /** No value occurs twice. */
  predicate Distinct<T(==)>(s: seq<T>)
  {
    forall i, j :: 0 <= i < j < |s| ==> s[i] != s[j]
  }

  lemma DistinctSnoc<T>(s: seq<T>, x: T)
    ensures Distinct(s + [x]) <==> Distinct(s) && x !in s
  {
    var t := s + [x];
    if Distinct(s) && x !in s {
      forall i, j | 0 <= i < j < |t| ensures t[i] != t[j] {
        if j < |s| {
          assert t[i] == s[i] && t[j] == s[j];
        } else {
          assert t[i] == s[i];
        }
      }
    }
    if Distinct(t) {
      forall i, j | 0 <= i < j < |s| ensures s[i] != s[j] {
        assert t[i] == s[i] && t[j] == s[j];
      }
      forall i | 0 <= i < |s| ensures s[i] != x {
        assert t[i] == s[i] && t[|s|] == x;
      }
    }
  }

  lemma DistinctCons<T>(x: T, s: seq<T>)
    ensures Distinct([x] + s) <==> Distinct(s) && x !in s
  {
    var t := [x] + s;
    if Distinct(s) && x !in s {
      forall i, j | 0 <= i < j < |t| ensures t[i] != t[j] {
        if i > 0 {
          assert t[i] == s[i - 1] && t[j] == s[j - 1];
        } else {
          assert t[j] == s[j - 1];
        }
      }
    }
    if Distinct(t) {
      forall i, j | 0 <= i < j < |s| ensures s[i] != s[j] {
        assert t[i + 1] == s[i] && t[j + 1] == s[j];
      }
      forall i | 0 <= i < |s| ensures s[i] != x {
        assert t[i + 1] == s[i] && t[0] == x;
      }
    }
  }

  /** A non-empty sequence is its front followed by its last element. */
  lemma Snoc<T>(s: seq<T>)
    requires s != []
    ensures s == s[..|s| - 1] + [s[|s| - 1]]
    ensures forall x :: x in s <==> x in s[..|s| - 1] || x == s[|s| - 1]
  {
  }

  /** A non-empty sequence is its first element followed by the rest. */
  lemma Cons<T>(s: seq<T>)
    requires s != []
    ensures s == [s[0]] + s[1..]
  {
  }

  /** The prefix one longer is the prefix followed by the next element. */
  lemma TakeSnoc<T>(s: seq<T>, i: nat)
    requires i < |s|
    ensures s[..i + 1] == s[..i] + [s[i]]
  {
  }

  /** The front of a + b, for a non-empty b, is a followed by the front of b. */
  lemma AppendFront<T>(a: seq<T>, b: seq<T>)
    requires b != []
    ensures (a + b)[..|a + b| - 1] == a + b[..|b| - 1]
    ensures (a + b)[|a + b| - 1] == b[|b| - 1]
  {
  }

  /** A prefix of a prefix is a prefix. */
  lemma TakeTake<T>(s: seq<T>, i: nat, j: nat)
    requires i <= j <= |s|
    ensures s[..j][..i] == s[..i]
  {
  }

  lemma Associative<T>(a: seq<T>, b: seq<T>, c: seq<T>)
    ensures (a + b) + c == a + (b + c)
  {
  }

  /** A sequence without repeats has as many elements as its set. */
  lemma {:induction false} DistinctCard<T>(s: seq<T>)
    requires Distinct(s)
    ensures |set x | x in s| == |s|
  {
    if s != [] {
      var init := s[..|s| - 1];
      assert s == init + [s[|s| - 1]];
      DistinctSnoc(init, s[|s| - 1]);
      DistinctCard(init);
      assert (set x | x in s) == (set x | x in init) + {s[|s| - 1]};
    }
  }

  /** Two sequences without repeats, one inside the other and of equal length, have the same elements. */
  lemma SameLengthSameElements<T>(a: seq<T>, b: seq<T>)
    requires Distinct(a) && Distinct(b) && |a| == |b|
    requires forall x :: x in a ==> x in b
    ensures forall x :: x in b ==> x in a
  {
    DistinctCard(a);
    DistinctCard(b);
    var A := set x | x in a;
    var B := set x | x in b;
    assert A <= B;
    if y :| y in b && y !in a {
      SubsetCard(A, B - {y});
    }
  }

  /** Two sequences without repeats and with the same elements have the same length. */
  lemma SameElementsSameLength<T>(a: seq<T>, b: seq<T>)
    requires Distinct(a) && Distinct(b)
    requires forall x :: x in a <==> x in b
    ensures |a| == |b|
  {
    DistinctCard(a);
    DistinctCard(b);
    assert (set x | x in a) == (set x | x in b);
  }

  lemma SubsetCard<T>(A: set<T>, B: set<T>)
    requires A <= B
    ensures |A| <= |B|
    decreases A
  {
    if A != {} {
      var x :| x in A;
      SubsetCard(A - {x}, B - {x});
    }
  }

  /** A sequence in which every value is counted at most once has no repeated value. */
  lemma DistinctFromCount<T>(s: seq<T>)
    requires forall x :: multiset(s)[x] <= 1
    ensures Distinct(s)
  {
    forall i, j | 0 <= i < j < |s|
      ensures s[i] != s[j]
    {
      assert s == s[..j] + s[j..];
      assert s[..j][i] == s[i];
      assert s[j..][0] == s[j];
      assert multiset(s[..j])[s[i]] >= 1 && multiset(s[j..])[s[j]] >= 1;
      assert multiset(s)[s[i]] == multiset(s[..j])[s[i]] + multiset(s[j..])[s[i]];
    }
  }

  /** A sequence whose multiset is that of Range(n) lists each of 0..n-1 exactly once. */
  lemma PermutationOfRange(s: seq<int>, n: nat)
    requires multiset(s) == multiset(Range(n))
    ensures |s| == n && Distinct(s)
    ensures forall v :: 0 <= v < n <==> v in s
  {
    assert |s| == |multiset(s)| == |multiset(Range(n))| == n;
    forall x ensures multiset(s)[x] <= 1 { RangeCount(n, x); }
    DistinctFromCount(s);
    forall v ensures 0 <= v < n <==> v in s {
      RangeCount(n, v);
      assert v in s <==> v in multiset(s);
    }
  }

  /** Two sequences without repeats and without a common value can be joined without repeats. */
  lemma DistinctConcat<T>(a: seq<T>, b: seq<T>)
    requires Distinct(a) && Distinct(b)
    requires forall x :: x in a ==> x !in b
    ensures Distinct(a + b)
  {
    var t := a + b;
    forall i, j | 0 <= i < j < |t| ensures t[i] != t[j] {
      if j < |a| {
        assert t[i] == a[i] && t[j] == a[j];
      } else if i < |a| {
        assert t[i] == a[i] && t[j] == b[j - |a|] && a[i] in a;
      } else {
        assert t[i] == b[i - |a|] && t[j] == b[j - |a|];
      }
    }
  }

  /** A sequence without repeats drawn from 0..n-1 has at most n elements. */
  lemma DistinctBounded(s: seq<int>, n: nat)
    requires Distinct(s)
    requires forall k :: 0 <= k < |s| ==> 0 <= s[k] < n
    ensures |s| <= n
  {
    var r := Range(n);
    forall x ensures multiset(r)[x] <= 1 { RangeCount(n, x); }
    DistinctFromCount(r);
    DistinctCard(s);
    DistinctCard(r);
    forall x | x in s ensures x in r {
      RangeCount(n, x);
      assert x in multiset(r);
    }
    SubsetCard(set x | x in s, set x | x in r);
  }

  /** The classes of a partition, read one after the other. */
  function Flatten(ls: seq<seq<int>>): seq<int>
  {
    if ls == [] then [] else ls[0] + Flatten(ls[1..])
  }

  lemma {:induction false} FlattenAppend(a: seq<seq<int>>, b: seq<seq<int>>)
    ensures Flatten(a + b) == Flatten(a) + Flatten(b)
  {
    if a == [] {
      assert a + b == b;
    } else {
      assert (a + b)[0] == a[0];
      assert (a + b)[1..] == a[1..] + b;
      FlattenAppend(a[1..], b);
    }
  }

  lemma {:induction false} FlattenMember(ls: seq<seq<int>>, c: nat, k: nat)
    requires c < |ls| && k < |ls[c]|
    ensures ls[c][k] in Flatten(ls)
  {
    if c > 0 {
      FlattenMember(ls[1..], c - 1, k);
    }
  }

  /** Elements of s that lie in set N, in order. */
  function Keep(s: seq<int>, N: set<int>): (r: seq<int>)
  {
    if s == [] then [] else Keep(s[..|s| - 1], N) + (if s[|s| - 1] in N then [s[|s| - 1]] else [])
  }

  /** Elements of s that lie outside N, in order. */
  function Drop(s: seq<int>, N: set<int>): (r: seq<int>)
  {
    if s == [] then [] else Drop(s[..|s| - 1], N) + (if s[|s| - 1] in N then [] else [s[|s| - 1]])
  }

  /** Splitting by N loses and invents nothing. */
  lemma {:induction false} KeepDropSplit(s: seq<int>, N: set<int>)
    ensures multiset(Keep(s, N)) + multiset(Drop(s, N)) == multiset(s)
    ensures forall v :: v in Keep(s, N) ==> v in N
    ensures forall v :: v in Drop(s, N) ==> v !in N
  {
    if s != [] {
      var init := s[..|s| - 1];
      KeepDropSplit(init, N);
      assert s == init + [s[|s| - 1]];
    }
  }

  lemma KeepDropSnoc(s: seq<int>, N: set<int>, j: nat)
    requires j < |s|
    ensures Keep(s[..j + 1], N) == Keep(s[..j], N) + (if s[j] in N then [s[j]] else [])
    ensures Drop(s[..j + 1], N) == Drop(s[..j], N) + (if s[j] in N then [] else [s[j]])
  {
    assert s[..j + 1][..j] == s[..j];
  }

  /** Splitting by N distributes over concatenation. */
  lemma {:induction false} KeepDropAppend(a: seq<int>, b: seq<int>, N: set<int>)
    ensures Keep(a + b, N) == Keep(a, N) + Keep(b, N)
    ensures Drop(a + b, N) == Drop(a, N) + Drop(b, N)
  {
    if b == [] {
      assert a + b == a;
    } else {
      assert (a + b)[..|a + b| - 1] == a + b[..|b| - 1];
      KeepDropAppend(a, b[..|b| - 1], N);
    }
  }

  /** s backwards. */
  function Reverse(s: seq<int>): (r: seq<int>)
    ensures |r| == |s|
  {
    if s == [] then [] else Reverse(s[1..]) + [s[0]]
  }

  lemma {:induction false} ReverseAppend(a: seq<int>, b: seq<int>)
    ensures Reverse(a + b) == Reverse(b) + Reverse(a)
  {
    if a == [] {
      assert a + b == b;
    } else {
      assert (a + b)[1..] == a[1..] + b;
      ReverseAppend(a[1..], b);
    }
  }

  lemma {:induction false} ReverseMultiset(s: seq<int>)
    ensures multiset(Reverse(s)) == multiset(s)
  {
    if s != [] {
      ReverseMultiset(s[1..]);
      assert s == [s[0]] + s[1..];
    }
  }

  //---------------------------------------------------------------------------
  // Row-major positions

  lemma {:induction false} MulMono(a: nat, b: nat, c: nat)
    requires a <= b
    ensures a * c <= b * c
  {
    if a < b {
      MulMono(a, b - 1, c);
      assert (b - 1) * c + c == b * c;
    }
  }

  /** Position b = q * len + r with 0 <= r < len has row q and column r. */
  lemma ModUnique(b: int, q: int, r: int, len: int)
    requires len > 0 && 0 <= r < len && b == q * len + r
    ensures b % len == r && b / len == q
  {
    var d := q - b / len;
    assert d * len == b % len - r;
    if d >= 1 {
      MulMono(1, d, len);
    } else if d <= -1 {
      MulMono(1, -d, len);
    }
  }

  /** Row and column of a position in rows of width w. */
  lemma DivMod(n: nat, w: nat)
    requires w > 0
    ensures 0 <= n / w && 0 <= n % w < w && n == n / w * w + n % w
  {
  }
}
