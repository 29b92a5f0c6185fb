/** A JavaScript `Map`: a list of entries with different keys, in insertion order. */
module OrderedMap {
  import opened Prelude

  ghost predicate UniqueKeys<K, V>(m: seq<(K, V)>) {
    forall i, j :: 0 <= i < j < |m| ==> m[i].0 != m[j].0
  }

  function Get<K(==), V>(m: seq<(K, V)>, k: K): Option<V> {
    if m == [] then None else if m[0].0 == k then Some(m[0].1) else Get(m[1..], k)
  }

  /** `set`: an existing key keeps its place, a new one goes to the end. */
  function Put<K(==), V>(m: seq<(K, V)>, k: K, v: V): seq<(K, V)> {
    if m == [] then [(k, v)]
    else if m[0].0 == k then [(k, v)] + m[1..]
    else [m[0]] + Put(m[1..], k, v)
  }

  /** The entries as a mathematical map, which forgets their order. */
  function View<K, V>(m: seq<(K, V)>): map<K, V> {
    if m == [] then map[] else View(m[1..])[m[0].0 := m[0].1]
  }

  /** The keys, in order. */
  function KeysOf<K, V>(m: seq<(K, V)>): (r: seq<K>)
    ensures |r| == |m|
  {
    seq(|m|, i requires 0 <= i < |m| => m[i].0)
  }

  lemma {:induction false} GetIsView<K, V>(m: seq<(K, V)>, k: K)
    ensures Get(m, k) == if k in View(m) then Some(View(m)[k]) else None
  {
    if m != [] {
      GetIsView(m[1..], k);
    }
  }

  lemma {:induction false} KeyIndex<K, V>(m: seq<(K, V)>, k: K) returns (i: nat)
    requires k in View(m)
    ensures i < |m| && m[i].0 == k
  {
    if m[0].0 == k {
      i := 0;
    } else {
      i := KeyIndex(m[1..], k);
      i := i + 1;
    }
  }

  lemma {:induction false} KeyAtIndex<K, V>(m: seq<(K, V)>, i: nat)
    requires i < |m|
    ensures m[i].0 in View(m)
  {
    if i > 0 {
      KeyAtIndex(m[1..], i - 1);
    }
  }

  lemma ViewKeys<K, V>(m: seq<(K, V)>)
    ensures forall k :: k in View(m) <==> exists i :: 0 <= i < |m| && m[i].0 == k
  {}

  lemma {:induction false} ViewAt<K, V>(m: seq<(K, V)>, i: nat)
    requires UniqueKeys(m) && i < |m|
    ensures m[i].0 in View(m) && View(m)[m[i].0] == m[i].1
  {
    if i > 0 {
      ViewAt(m[1..], i - 1);
    }
  }

  lemma {:induction false} ViewSnoc<K, V>(front: seq<(K, V)>, last: (K, V))
    requires UniqueKeys(front + [last])
    ensures last.0 !in View(front)
    ensures View(front + [last]) == View(front)[last.0 := last.1]
  {
    var m := front + [last];
    if front != [] {
      assert m[1..] == front[1..] + [last];
      forall i, j | 0 <= i < j < |m| - 1 ensures m[1..][i].0 != m[1..][j].0 {
        assert m[i + 1].0 != m[j + 1].0;
      }
      ViewSnoc(front[1..], last);
      assert m[0].0 != m[|front|].0;
    }
  }

  lemma {:induction false} PutOrder<K, V>(m: seq<(K, V)>, k: K, v: V)
    ensures KeysOf(Put(m, k, v)) == if k in View(m) then KeysOf(m) else KeysOf(m) + [k]
  {
    if m != [] && m[0].0 != k {
      PutOrder(m[1..], k, v);
      assert KeysOf(m) == [m[0].0] + KeysOf(m[1..]);
      assert KeysOf(Put(m, k, v)) == [m[0].0] + KeysOf(Put(m[1..], k, v));
    }
  }

  lemma PermutedUnique<K, V>(s: seq<(K, V)>, t: seq<(K, V)>)
    requires UniqueKeys(s) && Permutation(s, t)
    ensures UniqueKeys(t)
  {
    assert Distinct(s);
    PermutationDistinct(s, t);
    PermutationBasics(s, t);
    forall i, j | 0 <= i < j < |t| ensures t[i].0 != t[j].0 {
      var a := PermutationIndex(t, s, i);
      var b := PermutationIndex(t, s, j);
      assert t[i] != t[j];
    }
  }

  lemma {:induction false} PutView<K, V>(m: seq<(K, V)>, k: K, v: V)
    requires UniqueKeys(m)
    ensures UniqueKeys(Put(m, k, v))
    ensures View(Put(m, k, v)) == View(m)[k := v]
    ensures forall i :: 0 <= i < |Put(m, k, v)| ==> Put(m, k, v)[i] == (k, v) || Put(m, k, v)[i] in m
  {
    if m != [] && m[0].0 != k {
      PutView(m[1..], k, v);
      ViewKeys(m[1..]);
      ViewKeys(Put(m[1..], k, v));
      var r := Put(m[1..], k, v);
      forall i | 0 <= i < |r| ensures r[i].0 != m[0].0 {
        assert r[i].0 in View(r);
        if r[i].0 != k {
          var j :| 0 <= j < |m| - 1 && m[1..][j].0 == r[i].0;
          assert m[j + 1].0 != m[0].0;
        }
      }
    }
  }
}

/** Counts how often each key was seen and keeps the context objects, in order of first appearance. */
module StringCounter {
  import opened Prelude
  import opened OrderedMap

  datatype ValueHolder<C> = ValueHolder(value: nat, incrementCtx: seq<C>)

  function Incremented<K(==), C>(entries: seq<(K, ValueHolder<C>)>, key: K, ctx: C): seq<(K, ValueHolder<C>)> {
    var holder := Get(entries, key);
    if holder.None? then Put(entries, key, ValueHolder(1, [ctx]))
    else Put(entries, key, ValueHolder(holder.value.value + 1, holder.value.incrementCtx + [ctx]))
  }

  /** The counter after a series of increments. */
  function Tally<K(==), C>(log: seq<(K, C)>): seq<(K, ValueHolder<C>)> {
    if log == [] then []
    else Incremented(Tally(log[..|log| - 1]), log[|log| - 1].0, log[|log| - 1].1)
  }

  /** Insertion into a list sorted by count; an entry goes before the entries with the same count. */
  function InsertByCount<K, C>(e: (K, ValueHolder<C>), s: seq<(K, ValueHolder<C>)>, asc: bool): seq<(K, ValueHolder<C>)> {
    if s == [] || (if asc then e.1.value <= s[0].1.value else e.1.value >= s[0].1.value) then [e] + s
    else [s[0]] + InsertByCount(e, s[1..], asc)
  }

  function SortByCount<K, C>(s: seq<(K, ValueHolder<C>)>, asc: bool): seq<(K, ValueHolder<C>)> {
    if s == [] then [] else InsertByCount(s[0], SortByCount(s[1..], asc), asc)
  }

  class Counter<K(==), C> {
    var entries: seq<(K, ValueHolder<C>)>

    ghost predicate Valid()
      reads this
    {
      UniqueKeys(entries)
    }

    constructor ()
      ensures Valid() && entries == []
    {
      entries := [];
    }

    /** The key counts one more, with one more context object; keys stay in order of first appearance. */
    method Increment(key: K, contextValue: C)
      requires Valid()
      modifies this
      ensures Valid() && entries == Incremented(old(entries), key, contextValue)
      ensures View(entries) == View(old(entries))[key := SeenAgain(View(old(entries)), key, contextValue)]
      ensures KeysOf(entries) == if key in View(old(entries)) then KeysOf(old(entries)) else KeysOf(old(entries)) + [key]
    {
      IncrementedView(entries, key, contextValue);
      var holder := Get(entries, key);
      if holder.None? {
        entries := Put(entries, key, ValueHolder(1, [contextValue]));
      } else {
        entries := Put(entries, key, ValueHolder(holder.value.value + 1, holder.value.incrementCtx + [contextValue]));
      }
    }

    /** The same entries ordered by count; entries with equal counts keep their order. */
    method Sort(asc: bool)
      requires Valid()
      modifies this
      ensures Valid() && entries == SortByCount(old(entries), asc)
      ensures SortedByCount(entries, asc) && Permutation(old(entries), entries)
      ensures forall n :: WithCount(entries, n) == WithCount(old(entries), n)
    {
      SortIsStable(entries, asc);
      PermutedUnique(entries, SortByCount(entries, asc));
      entries := SortByCount(entries, asc);
    }
  }

  // ---------------------------------------------------------------- what is counted

  function Count<K(==)>(log: seq<(K, K)>, k: K): nat {
    multiset(KeysOf(log))[k]
  }

  /** Every increment in this log hands over the key itself as context. */
  ghost predicate SelfContext<K>(log: seq<(K, K)>) {
    forall i :: 0 <= i < |log| ==> log[i].1 == log[i].0
  }

  ghost predicate Holds<K>(holder: ValueHolder<K>, k: K, n: nat) {
    && holder.value == n == |holder.incrementCtx| && n > 0
    && forall i :: 0 <= i < n ==> holder.incrementCtx[i] == k
  }

  /** What a key maps to after it was seen once more. */
  function SeenAgain<K(==), C>(before: map<K, ValueHolder<C>>, key: K, ctx: C): ValueHolder<C> {
    if key in before then ValueHolder(before[key].value + 1, before[key].incrementCtx + [ctx]) else ValueHolder(1, [ctx])
  }

  lemma IncrementedView<K, C>(entries: seq<(K, ValueHolder<C>)>, key: K, ctx: C)
    requires UniqueKeys(entries)
    ensures UniqueKeys(Incremented(entries, key, ctx))
    ensures View(Incremented(entries, key, ctx)) == View(entries)[key := SeenAgain(View(entries), key, ctx)]
    ensures KeysOf(Incremented(entries, key, ctx)) == if key in View(entries) then KeysOf(entries) else KeysOf(entries) + [key]
  {
    hide UniqueKeys, Get, Put, View, KeysOf;
    GetIsView(entries, key);
    PutView(entries, key, SeenAgain(View(entries), key, ctx));
    PutOrder(entries, key, SeenAgain(View(entries), key, ctx));
  }

  /** The counter maps a key to the number of times it was seen, and does not know keys it has not seen. */
  lemma {:induction false} TallyAt<K>(log: seq<(K, K)>, k: K)
    requires SelfContext(log)
    ensures UniqueKeys(Tally(log))
    ensures k in View(Tally(log)) <==> Count(log, k) > 0
    ensures k in View(Tally(log)) ==> Holds(View(Tally(log))[k], k, Count(log, k))
  {
    if log != [] {
      var front, last := log[..|log| - 1], log[|log| - 1];
      TallyAt(front, k);
      assert KeysOf(log) == KeysOf(front) + [last.0];
      IncrementedView(Tally(front), last.0, last.1);
    }
  }

  lemma {:induction false} TallyUnique<K>(log: seq<(K, K)>)
    ensures UniqueKeys(Tally(log))
  {
    if log != [] {
      TallyUnique(log[..|log| - 1]);
      IncrementedView(Tally(log[..|log| - 1]), log[|log| - 1].0, log[|log| - 1].1);
    }
  }

  // ---------------------------------------------------------------- the sort is a stable sort

  ghost predicate SortedByCount<K, C>(s: seq<(K, ValueHolder<C>)>, asc: bool) {
    forall i, j :: 0 <= i < j < |s| ==> if asc then s[i].1.value <= s[j].1.value else s[i].1.value >= s[j].1.value
  }

  /** The entries with a given count, in list order. */
  function WithCount<K, C>(s: seq<(K, ValueHolder<C>)>, n: nat): seq<(K, ValueHolder<C>)> {
    if s == [] then [] else (if s[0].1.value == n then [s[0]] else []) + WithCount(s[1..], n)
  }

  lemma {:induction false} InsertPermutes<K, C>(e: (K, ValueHolder<C>), s: seq<(K, ValueHolder<C>)>, asc: bool)
    ensures multiset(InsertByCount(e, s, asc)) == multiset{e} + multiset(s)
  {
    if s == [] {
    } else {
      InsertPermutes(e, s[1..], asc);
      assert s == [s[0]] + s[1..];
    }
  }

  lemma {:induction false} InsertSorted<K, C>(e: (K, ValueHolder<C>), s: seq<(K, ValueHolder<C>)>, asc: bool)
    requires SortedByCount(s, asc)
    ensures SortedByCount(InsertByCount(e, s, asc), asc)
  {
    if s == [] || (if asc then e.1.value <= s[0].1.value else e.1.value >= s[0].1.value) {
    } else {
      InsertSorted(e, s[1..], asc);
      InsertPermutes(e, s[1..], asc);
      var t := InsertByCount(e, s[1..], asc);
      forall j | 0 <= j < |t| ensures if asc then s[0].1.value <= t[j].1.value else s[0].1.value >= t[j].1.value {
        assert t[j] in multiset(t);
        if t[j] != e {
          assert t[j] in s[1..];
        }
      }
    }
  }

  lemma {:induction false} InsertKeepsOrder<K, C>(e: (K, ValueHolder<C>), s: seq<(K, ValueHolder<C>)>, asc: bool, n: nat)
    ensures WithCount(InsertByCount(e, s, asc), n) == (if e.1.value == n then [e] else []) + WithCount(s, n)
  {
    if s == [] || (if asc then e.1.value <= s[0].1.value else e.1.value >= s[0].1.value) {
      assert ([e] + s)[1..] == s;
    } else {
      InsertKeepsOrder(e, s[1..], asc, n);
      var t := InsertByCount(e, s[1..], asc);
      assert ([s[0]] + t)[1..] == t;
      // the new entry passes only entries with another count
      assert s[0].1.value != e.1.value;
    }
  }

  /** Sorting permutes the entries, orders them by count, and leaves entries with equal counts in their order. */
  lemma {:induction false} SortIsStable<K, C>(s: seq<(K, ValueHolder<C>)>, asc: bool)
    ensures SortedByCount(SortByCount(s, asc), asc)
    ensures Permutation(s, SortByCount(s, asc))
    ensures forall n :: WithCount(SortByCount(s, asc), n) == WithCount(s, n)
  {
    if s != [] {
      var rest := SortByCount(s[1..], asc);
      SortIsStable(s[1..], asc);
      InsertSorted(s[0], rest, asc);
      InsertPermutes(s[0], rest, asc);
      assert s == [s[0]] + s[1..];
      forall n ensures WithCount(SortByCount(s, asc), n) == WithCount(s, n) {
        InsertKeepsOrder(s[0], rest, asc, n);
      }
    }
  }
}
