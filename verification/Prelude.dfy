/** Small datatypes and facts about sequences that several modules share. */
module Prelude {

  datatype Option<+T> = None | Some(value: T)

  /** The outcome of an operation that may throw: a value, or the reason of the exception. */
  datatype Result<+T> = Ok(value: T) | Thrown(reason: string)

  type NodeId = string

  function Elems<T>(s: seq<T>): set<T> {
    set x | x in s
  }

  predicate Distinct<T(==)>(s: seq<T>) {
    forall i, j :: 0 <= i < j < |s| ==> s[i] != s[j]
  }

  function Min(a: int, b: int): int {
    if a < b then a else b
  }

  function RemoveAt<T>(s: seq<T>, k: nat): (r: seq<T>)
    requires k < |s|
    ensures |r| == |s| - 1
  {
    s[..k] + s[k + 1..]
  }

  /** A JavaScript `Set` keeps insertion order and ignores repeated additions. */
  function AddNew<T(==)>(s: seq<T>, x: T): seq<T> {
    if x in s then s else s + [x]
  }

  // ---------------------------------------------------------------- cardinality

  /** Pigeonhole: a list has as many different elements as positions exactly when it has no repetition. */
  lemma {:induction false} DistinctIffFull<T>(s: seq<T>)
    ensures |Elems(s)| <= |s|
    ensures |Elems(s)| == |s| <==> Distinct(s)
  {
    if s != [] {
      var last, front := s[|s| - 1], s[..|s| - 1];
      DistinctIffFull(front);
      assert s == front + [last];
      assert Elems(s) == Elems(front) + {last};
      if last in front {
        var i :| 0 <= i < |front| && front[i] == last;
        assert s[i] == s[|s| - 1];
        assert Elems(s) == Elems(front);
      } else if Distinct(front) {
        assert Distinct(s);
      } else {
        var i, j :| 0 <= i < j < |front| && front[i] == front[j];
        assert s[i] == s[j];
      }
    }
  }

  lemma {:induction false} SubsetSize<T>(a: set<T>, b: set<T>)
    requires a <= b
    ensures |a| <= |b|
    ensures |a| == |b| ==> a == b
  {
    assert b == a + (b - a);
    assert |b| == |a| + |b - a|;
  }

  /** Two disjoint sets inside a third one share its size between them. */
  lemma DisjointInside<T>(a: set<T>, b: set<T>, c: set<T>)
    requires a !! b && a <= c && b <= c
    ensures |a| + |b| <= |c|
  {
    assert |a + b| == |a| + |b|;
    SubsetSize(a + b, c);
  }

  // ---------------------------------------------------------------- permutations

  ghost predicate Permutation<T>(s: seq<T>, t: seq<T>) {
    multiset(s) == multiset(t)
  }

  lemma PermutationBasics<T>(s: seq<T>, t: seq<T>)
    requires Permutation(s, t)
    ensures |s| == |t|
    ensures forall x :: x in s <==> x in t
    ensures Elems(s) == Elems(t)
  {
    assert |multiset(s)| == |s| && |multiset(t)| == |t|;
    forall x ensures x in s <==> x in t {
      assert x in s <==> x in multiset(s);
      assert x in t <==> x in multiset(t);
    }
  }

  lemma PermutationIndex<T>(s: seq<T>, t: seq<T>, i: nat) returns (j: nat)
    requires Permutation(s, t) && i < |s|
    ensures j < |t| && t[j] == s[i]
  {
    assert s[i] in multiset(s);
    assert s[i] in multiset(t);
    j :| 0 <= j < |t| && t[j] == s[i];
  }

  lemma PermutationDistinct<T>(s: seq<T>, t: seq<T>)
    requires Permutation(s, t)
    ensures Distinct(s) <==> Distinct(t)
  {
    PermutationBasics(s, t);
    DistinctIffFull(s);
    DistinctIffFull(t);
  }

  lemma RemoveAtMultiset<T>(s: seq<T>, k: nat)
    requires k < |s|
    ensures multiset(s) == multiset(RemoveAt(s, k)) + multiset{s[k]}
  {
    assert s == s[..k] + [s[k]] + s[k + 1..];
  }

  /** Takes the first element of `s` out of a permutation of `s`; what is left are permutations again. */
  lemma PermutationStep<T>(s: seq<T>, t: seq<T>) returns (k: nat)
    requires s != [] && Permutation(s, t)
    ensures k < |t| && t[k] == s[0]
    ensures Permutation(s[1..], RemoveAt(t, k))
  {
    PermutationBasics(s, t);
    assert s[0] in t;
    k :| 0 <= k < |t| && t[k] == s[0];
    RemoveAtMultiset(s, 0);
    RemoveAtMultiset(t, k);
    assert RemoveAt(s, 0) == s[1..];
    assert multiset(s[1..]) == multiset(s) - multiset{s[0]};
    assert multiset(RemoveAt(t, k)) == multiset(t) - multiset{s[0]};
  }
}
