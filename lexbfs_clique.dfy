/**
 * The LexBFS library's clique: one column of a sparse 0/1 matrix, stored as
 * the list of row numbers (unsigned 32-bit) holding a 1, together with the
 * identifier, number and label the consecutive-ones test gives it.
 */
module LexClique {

  /** 2^32: unsigned 32-bit values live in [0, UintBound). */
  const UintBound: int := 0x1_0000_0000

  /** The value of an `int` converted to `unsigned int` (reduction modulo 2^32). */
  function AsUnsigned(k: int): (r: nat)
    ensures r < UintBound
    ensures 0 <= k < UintBound ==> r == k
    ensures -UintBound <= k < 0 ==> r == k + UintBound
  {
    k % UintBound
  }

  /** The value of an `unsigned int` converted to a 32-bit `int` (two's complement). */
  function AsSigned(v: nat): (r: int)
    requires v < UintBound
    ensures -UintBound / 2 <= r < UintBound / 2
    ensures r == v || r == v - UintBound
  {
    if v < UintBound / 2 then v else v - UintBound
  }

  /** Converting an unsigned value to `int` and back gives it back. */
  lemma SignedRoundTrip(v: nat)
    requires v < UintBound
    ensures AsUnsigned(AsSigned(v)) == v
  {
  }

  /** Every entry is a 32-bit unsigned value. */
  predicate Unsigned(vs: seq<int>)
  {
    forall i :: 0 <= i < |vs| ==> 0 <= vs[i] < UintBound
  }

  /**
   * A clique: `vertices` is the private vertex vector; `id`, `number` and
   * `lexLabel` (the source's `label`, a Dafny keyword) are the public
   * fields the consecutive-ones test writes.
   */
  datatype Clique = Clique(vertices: seq<int>, id: int, number: int, lexLabel: seq<int>)

  /** The default-constructed clique: no vertices, id and number -1. */
  function EmptyClique(): (c: Clique)
    ensures c.vertices == [] && c.id == -1 && c.number == -1 && c.lexLabel == []
  {
    Clique([], -1, -1, [])
  }

  /**
   * The vector constructor: copies the given vertices element by element
   * into a vector resized to the argument's length.
   */
  method NewClique(vs: seq<int>) returns (c: Clique)
    requires Unsigned(vs)
    ensures c.vertices == vs && c.id == -1 && c.number == -1 && c.lexLabel == []
    ensures Unsigned(c.vertices)
  {
    var vertices: seq<int> := [];
    var i := 0;
    while i < |vs|
      invariant 0 <= i <= |vs|
      invariant |vertices| == (if i == 0 then 0 else |vs|)
      invariant forall k :: 0 <= k < i ==> vertices[k] == vs[k]
    {
      if |vertices| != |vs| {
        vertices := vertices + seq(|vs| - |vertices|, _ => 0);
      }
      vertices := vertices[i := vs[i]];
      i := i + 1;
    }
    c := Clique(vertices, -1, -1, []);
  }

  /**
   * Vertex v counts as numbered when some entry of the list equals it once
   * converted to unsigned: the source compares through an unsigned
   * subtraction, so the entry -1 matches the vertex 2^32 - 1.
   */
  predicate IsNumbered(v: int, numbered: seq<int>)
  {
    exists j :: 0 <= j < |numbered| && AsUnsigned(numbered[j]) == v
  }

  /** Membership test by linear search. */
  method ContainsXasOneEntry(c: Clique, x: int) returns (found: bool)
    ensures found <==> x in c.vertices
  {
    var i := 0;
    while i < |c.vertices|
      invariant 0 <= i <= |c.vertices|
      invariant x !in c.vertices[..i]
    {
      if c.vertices[i] == x {
        return true;
      }
      i := i + 1;
    }
    assert c.vertices[..i] == c.vertices;
    return false;
  }

  /** Whether `numbered` has an entry matching v, searched entry by entry. */
  method MatchesNumbered(v: int, numbered: seq<int>) returns (found: bool)
    ensures found <==> IsNumbered(v, numbered)
  {
    var j := 0;
    while j < |numbered|
      invariant 0 <= j <= |numbered|
      invariant forall t :: 0 <= t < j ==> AsUnsigned(numbered[t]) != v
    {
      if AsUnsigned(numbered[j]) == v {
        return true;
      }
      j := j + 1;
    }
    return false;
  }

  /**
   * Looks for a vertex of the clique not matched by `numbered`. On success
   * the out-parameter receives the first such vertex (as a signed value);
   * otherwise it keeps its old value.
   */
  method ContainsUnnumberedOneEntry(c: Clique, numbered: seq<int>, x: int) returns (found: bool, x': int)
    requires Unsigned(c.vertices)
    ensures found <==> exists k :: 0 <= k < |c.vertices| && !IsNumbered(c.vertices[k], numbered)
    ensures found ==> exists k :: 0 <= k < |c.vertices| && !IsNumbered(c.vertices[k], numbered)
                                  && (forall t :: 0 <= t < k ==> IsNumbered(c.vertices[t], numbered))
                                  && x' == AsSigned(c.vertices[k])
    ensures !found ==> x' == x
  {
    var index := 0;
    while index < |c.vertices|
      invariant 0 <= index <= |c.vertices|
      invariant forall t :: 0 <= t < index ==> IsNumbered(c.vertices[t], numbered)
    {
      var isFound := MatchesNumbered(c.vertices[index], numbered);
      if !isFound {
        return true, AsSigned(c.vertices[index]);
      }
      index := index + 1;
    }
    return false, x;
  }

  /**
   * The vertex reported by `ContainsUnnumberedOneEntry`, once appended to the
   * numbered list, is matched: the same clique's next search moves on.
   */
  lemma ReportedBecomesNumbered(v: int, numbered: seq<int>)
    requires 0 <= v < UintBound
    ensures IsNumbered(v, numbered + [AsSigned(v)])
    ensures forall w :: IsNumbered(w, numbered) ==> IsNumbered(w, numbered + [AsSigned(v)])
  {
    var n2 := numbered + [AsSigned(v)];
    SignedRoundTrip(v);
    assert AsUnsigned(n2[|numbered|]) == v;
    forall w | IsNumbered(w, numbered) ensures IsNumbered(w, n2) {
      var j :| 0 <= j < |numbered| && AsUnsigned(numbered[j]) == w;
      assert n2[j] == numbered[j];
    }
  }
}
