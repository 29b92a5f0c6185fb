/** What the merged reply means: exactness, fault tolerance and independence of the arrival order. */
module Quorum {
  import opened Prelude
  import opened OrderedMap
  import opened StringCounter
  import opened ReplyMerger

  type StatusView = map<NodeId, int>
  type KeyView = map<string, map<NodeId, Rec>>

  /** The nodes that answered with code 200. */
  function Repliers(s: StatusView): set<NodeId> {
    set n | n in s && s[n] == 200
  }

  /** The nodes that answered with code 200 and sent exactly this record. */
  function Supporters(s: StatusView, items: map<NodeId, Rec>, r: Rec): set<NodeId> {
    set n | n in s && s[n] == 200 && n in items && items[n] == r
  }

  ghost predicate WellFormed(status: Status, keys: KeyItems) {
    UniqueKeys(status) && UniqueKeys(keys) && WellKeyed(keys)
  }

  lemma {:induction false} CountIsSupport(status: Status, items: map<NodeId, Rec>, r: Rec)
    requires UniqueKeys(status)
    ensures Count(RecordsOf(status, items), r) == |Supporters(View(status), items, r)|
  {
    if status != [] {
      var front, last := status[..|status| - 1], status[|status| - 1];
      assert status == front + [last];
      CountIsSupport(front, items, r);
      ViewSnoc(front, last);
      var before, after := Supporters(View(front), items, r), Supporters(View(status), items, r);
      if last.1 == 200 && last.0 in items {
        assert KeysOf(RecordsOf(status, items)) == KeysOf(RecordsOf(front, items)) + [items[last.0]];
      }
      if last.1 == 200 && last.0 in items && items[last.0] == r {
        assert after == before + {last.0};
      } else {
        assert after == before;
      }
    }
  }

  // ---------------------------------------------------------------- from counts to keys

  lemma ChosenHasKey(status: Status, items: map<NodeId, Rec>, key: string, q: int)
    requires q >= 1 && forall n :: n in items ==> items[n].skey == key
    ensures forall r :: r in Chosen(RecordsOf(status, items), q) ==> r.skey == key
  {
    RecordsFacts(status, items);
    ChosenMeans(RecordsOf(status, items), q);
  }

  /** The items are the chosen records of all keys, one per key. */
  lemma {:induction false} ItemsMeans(status: Status, keys: KeyItems, q: int)
    requires q >= 1 && UniqueKeys(keys) && WellKeyed(keys)
    ensures forall r :: r in Items(status, keys, q) <==>
              r.skey in View(keys) && r in Chosen(RecordsOf(status, View(keys)[r.skey]), q)
    ensures forall i, j :: 0 <= i < j < |Items(status, keys, q)| ==> Items(status, keys, q)[i].skey != Items(status, keys, q)[j].skey
  {
    if keys != [] {
      var front, last := keys[..|keys| - 1], keys[|keys| - 1];
      assert keys == front + [last];
      ItemsMeans(status, front, q);
      ViewSnoc(front, last);
      assert forall n :: n in last.1 ==> keys[|keys| - 1].1[n].skey == last.0;
      ChosenHasKey(status, last.1, last.0, q);
      RecordsFacts(status, last.1);
      ChosenMeans(RecordsOf(status, last.1), q);
      var before, chosen := Items(status, front, q), Chosen(RecordsOf(status, last.1), q);
      forall i | 0 <= i < |before| ensures before[i].skey != last.0 {
        assert before[i] in before;
      }
      if chosen != [] {
        assert chosen[0] in chosen;
      }
    }
  }

  lemma {:induction false} MissingMeans(status: Status, keys: KeyItems, q: int)
    requires UniqueKeys(keys)
    ensures forall k :: k in Missing(status, keys, q) <==>
              k in View(keys) && Missed(RecordsOf(status, View(keys)[k]), q)
    ensures Distinct(Missing(status, keys, q))
  {
    if keys != [] {
      var front, last := keys[..|keys| - 1], keys[|keys| - 1];
      assert keys == front + [last];
      MissingMeans(status, front, q);
      ViewSnoc(front, last);
    }
  }

  /** A key is listed as missing when its records do not agree, or too few nodes sent them. */
  ghost predicate Disputed(s: StatusView, items: map<NodeId, Rec>, q: int) {
    && (exists r :: Supporters(s, items, r) != {})
    && ((forall r :: |Supporters(s, items, r)| < q) ||
        (exists r, r' :: r != r' && Supporters(s, items, r) != {} && Supporters(s, items, r') != {}))
  }

  lemma MissedIsDisputed(status: Status, items: map<NodeId, Rec>, q: int)
    requires UniqueKeys(status) && q >= 1
    ensures Missed(RecordsOf(status, items), q) <==> Disputed(View(status), items, q)
  {
    RecordsFacts(status, items);
    MissedMeans(RecordsOf(status, items), q);
    forall r
      ensures Count(RecordsOf(status, items), r) == |Supporters(View(status), items, r)|
      ensures Count(RecordsOf(status, items), r) > 0 <==> Supporters(View(status), items, r) != {}
    {
      CountIsSupport(status, items, r);
    }
  }

  lemma ChosenIsSupported(status: Status, items: map<NodeId, Rec>, q: int)
    requires UniqueKeys(status) && q >= 1
    ensures Chosen(RecordsOf(status, items), q) == [] <==> forall r :: |Supporters(View(status), items, r)| < q
    ensures forall r :: r in Chosen(RecordsOf(status, items), q) ==>
              && |Supporters(View(status), items, r)| >= q
              && forall x :: |Supporters(View(status), items, x)| <= |Supporters(View(status), items, r)|
  {
    var log := RecordsOf(status, items);
    RecordsFacts(status, items);
    ChosenMeans(log, q);
    forall r ensures Count(log, r) == |Supporters(View(status), items, r)| {
      CountIsSupport(status, items, r);
    }
    hide Chosen, Supporters, Count, View, RecordsOf;
    if Chosen(log, q) != [] {
      var r := Chosen(log, q)[0];
      assert r in Chosen(log, q);
      assert |Supporters(View(status), items, r)| == Count(log, r) >= q;
    } else {
      forall r ensures |Supporters(View(status), items, r)| < q {
        assert Count(log, r) == |Supporters(View(status), items, r)|;
      }
    }
    forall r | r in Chosen(log, q)
      ensures |Supporters(View(status), items, r)| >= q
      ensures forall x :: |Supporters(View(status), items, x)| <= |Supporters(View(status), items, r)|
    {
      forall x ensures |Supporters(View(status), items, x)| <= |Supporters(View(status), items, r)| {
        assert Count(log, x) <= Count(log, r);
      }
    }
  }

  /**
   Quorum exactness: the reply has an item for a key exactly when some record was sent by at least
   `q` different nodes with code 200; the item is one with the most supporters, there is one per key,
   and the keys without quorum are exactly the disputed ones.
   */
  lemma QuorumExact(status: Status, keys: KeyItems, q: int)
    requires WellFormed(status, keys) && q >= 1
    ensures var reply, s, k := Grouped(status, keys, q), View(status), View(keys);
            && (forall i, j :: 0 <= i < j < |reply.items| ==> reply.items[i].skey != reply.items[j].skey)
            && (forall r :: r in reply.items ==>
                  && r.skey in k && |Supporters(s, k[r.skey], r)| >= q
                  && forall x :: |Supporters(s, k[r.skey], x)| <= |Supporters(s, k[r.skey], r)|)
            && (forall key :: key in k && (exists r :: |Supporters(s, k[key], r)| >= q) ==>
                  exists r :: r in reply.items && r.skey == key)
            && (forall key :: key in reply.keysWithoutQuorum <==> key in k && Disputed(s, k[key], q))
  {
    var items, s, k := Items(status, keys, q), View(status), View(keys);
    ItemsMeans(status, keys, q);
    MissingMeans(status, keys, q);
    forall key | key in k
      ensures (exists r :: |Supporters(s, k[key], r)| >= q) ==> exists r :: r in items && r.skey == key
      ensures forall r :: r in Chosen(RecordsOf(status, k[key]), q) ==>
                |Supporters(s, k[key], r)| >= q && forall x :: |Supporters(s, k[key], x)| <= |Supporters(s, k[key], r)|
      ensures Missed(RecordsOf(status, k[key]), q) <==> Disputed(s, k[key], q)
    {
      ChosenIsSupported(status, k[key], q);
      MissedIsDisputed(status, k[key], q);
      var chosen := Chosen(RecordsOf(status, k[key]), q);
      if chosen != [] {
        KeyOfView(keys, key);
        ChosenHasKey(status, k[key], key, q);
        assert chosen[0] in chosen;
        assert chosen[0] in items;
      }
    }
  }

  lemma KeyOfView(keys: KeyItems, key: string)
    requires UniqueKeys(keys) && WellKeyed(keys) && key in View(keys)
    ensures var items: map<NodeId, Rec> := View(keys)[key]; forall n :: n in items ==> items[n].skey == key
  {}

  // ---------------------------------------------------------------- fault tolerance

  /** With fewer than `q` lying nodes, every returned record was sent by a truthful node. */
  lemma ReturnedIsTruthful(status: Status, keys: KeyItems, q: int, liars: set<NodeId>, r: Rec)
    requires WellFormed(status, keys) && q >= 1 && |liars| < q
    requires r in Grouped(status, keys, q).items
    ensures r.skey in View(keys)
    ensures exists n :: n !in liars && n in Supporters(View(status), View(keys)[r.skey], r)
  {
    QuorumExact(status, keys, q);
    var supporters := Supporters(View(status), View(keys)[r.skey], r);
    if supporters <= liars {
      SubsetSize(supporters, liars);
    }
  }

  /** With fewer than `q` lying nodes, a record that `q` nodes sent and no truthful node contradicts is returned. */
  lemma AgreedIsReturned(status: Status, keys: KeyItems, q: int, liars: set<NodeId>, r: Rec)
    requires WellFormed(status, keys) && q >= 1 && |liars| < q
    requires r.skey in View(keys) && |Supporters(View(status), View(keys)[r.skey], r)| >= q
    requires forall n :: n in Repliers(View(status)) && n !in liars && n in View(keys)[r.skey] ==> View(keys)[r.skey][n] == r
    ensures r in Grouped(status, keys, q).items
    ensures forall x :: x in Grouped(status, keys, q).items && x.skey == r.skey ==> x == r
  {
    var reply, s, k := Grouped(status, keys, q), View(status), View(keys);
    QuorumExact(status, keys, q);
    var y :| y in reply.items && y.skey == r.skey;
    forall x | x in reply.items && x.skey == r.skey ensures x == r {
      if x != r {
        assert Supporters(s, k[r.skey], x) <= liars;
        SubsetSize(Supporters(s, k[r.skey], x), liars);
      }
    }
  }

  // ---------------------------------------------------------------- arrival order

  lemma {:induction false} GoodRepliesCount(status: Status)
    requires UniqueKeys(status)
    ensures GoodReplies(status) == |set n | n in View(status) && 200 <= View(status)[n] < 300|
  {
    if status != [] {
      var front, last := status[..|status| - 1], status[|status| - 1];
      assert status == front + [last];
      GoodRepliesCount(front);
      ViewSnoc(front, last);
      var before := set n | n in View(front) && 200 <= View(front)[n] < 300;
      var after := set n | n in View(status) && 200 <= View(status)[n] < 300;
      assert after == if 200 <= last.1 < 300 then before + {last.0} else before;
    }
  }

  lemma {:induction false} LastTsIsGreatest(items: seq<Rec>)
    ensures LastTs(items) >= 0.0
    ensures forall r :: r in items && r.ts.Some? ==> r.ts.value <= LastTs(items)
    ensures LastTs(items) == 0.0 || exists r :: r in items && r.ts == Some(LastTs(items))
  {
    if items != [] {
      var front, last := items[..|items| - 1], items[|items| - 1];
      LastTsIsGreatest(front);
      assert items == front + [last];
      if LastTs(items) != LastTs(front) {
        assert last in items && last.ts == Some(LastTs(items));
      }
    }
  }

  lemma LastTsOfSet(items: seq<Rec>, items': seq<Rec>)
    requires forall r :: r in items <==> r in items'
    ensures LastTs(items) == LastTs(items')
  {
    LastTsIsGreatest(items);
    LastTsIsGreatest(items');
  }

  /** Two replies that say the same: the same items and keys, however listed, and the same summary. */
  ghost predicate SameReply(a: ReplyGrouped, b: ReplyGrouped) {
    && Permutation(a.items, b.items) && Permutation(a.keysWithoutQuorum, b.keysWithoutQuorum)
    && a.quorumResult == b.quorumResult && a.lastTs == b.lastTs
  }

  /** With a strict majority as threshold, no two records of a key can both reach it. */
  lemma MajorityDecides(status: Status, items: map<NodeId, Rec>, q: int, r: Rec)
    requires UniqueKeys(status) && q >= 1 && 2 * q > |Repliers(View(status))|
    ensures r in Chosen(RecordsOf(status, items), q) <==> |Supporters(View(status), items, r)| >= q
  {
    var s, chosen := View(status), Chosen(RecordsOf(status, items), q);
    ChosenIsSupported(status, items, q);
    if |Supporters(s, items, r)| >= q {
      assert chosen != [];
      var x := chosen[0];
      assert x in chosen;
      if x != r {
        DisjointInside(Supporters(s, items, r), Supporters(s, items, x), Repliers(s));
      }
    }
  }

  lemma {:induction false} SameElementsPermuted<T>(a: seq<T>, b: seq<T>)
    requires Distinct(a) && Distinct(b) && forall x :: x in a <==> x in b
    ensures Permutation(a, b)
  {
    forall x ensures multiset(a)[x] == multiset(b)[x] {
      OccursOnce(a, x);
      OccursOnce(b, x);
    }
  }

  lemma {:induction false} OccursOnce<T>(a: seq<T>, x: T)
    requires Distinct(a)
    ensures multiset(a)[x] == if x in a then 1 else 0
  {
    if a != [] {
      var front, last := a[..|a| - 1], a[|a| - 1];
      OccursOnce(front, x);
      assert a == front + [last];
    }
  }

  /**
   The merged reply does not depend on the order in which replies arrived, provided the threshold is
   more than half of the nodes that replied.
   */
  lemma OrderIrrelevant(status: Status, keys: KeyItems, status': Status, keys': KeyItems, q: int)
    requires WellFormed(status, keys) && WellFormed(status', keys')
    requires View(status) == View(status') && View(keys) == View(keys')
    requires q >= 1 && 2 * q > |Repliers(View(status))|
    ensures SameReply(Grouped(status, keys, q), Grouped(status', keys', q))
  {
    var items, items' := Items(status, keys, q), Items(status', keys', q);
    var missing, missing' := Missing(status, keys, q), Missing(status', keys', q);
    var k := View(keys);
    ItemsMeans(status, keys, q);
    ItemsMeans(status', keys', q);
    MissingMeans(status, keys, q);
    MissingMeans(status', keys', q);
    forall r ensures r in items <==> r in items' {
      if r.skey in k {
        MajorityDecides(status, k[r.skey], q, r);
        MajorityDecides(status', k[r.skey], q, r);
      }
    }
    forall key ensures key in missing <==> key in missing' {
      if key in k {
        MissedIsDisputed(status, k[key], q);
        MissedIsDisputed(status', k[key], q);
      }
    }
    SameElementsPermuted(items, items');
    SameElementsPermuted(missing, missing');
    PermutationBasics(items, items');
    PermutationBasics(missing, missing');
    GoodRepliesCount(status);
    GoodRepliesCount(status');
    LastTsOfSet(items, items');
  }

  // ---------------------------------------------------------------- and it does when ties are possible

  lemma {:induction false} FirstSeenStaysFirst(log: seq<(Rec, Rec)>)
    requires log != []
    ensures Tally(log) != [] && Tally(log)[0].0 == log[0].0
  {
    if |log| > 1 {
      FirstSeenStaysFirst(log[..|log| - 1]);
    }
  }

  lemma {:induction false} WithCountHead<K, C>(s: seq<(K, ValueHolder<C>)>, n: nat)
    requires s != [] && s[0].1.value == n
    ensures WithCount(s, n) != [] && WithCount(s, n)[0] == s[0]
  {}

  /** Among records with the same count, the one that arrived first is taken: the sort is stable. */
  lemma TieGoesToFirst(log: seq<(Rec, Rec)>, q: int)
    requires SelfContext(log) && log != [] && Count(log, log[0].0) >= q
    requires forall r :: Count(log, r) <= Count(log, log[0].0)
    ensures Chosen(log, q) == [log[0].0]
  {
    hide Tally, SortByCount;
    var t, top, n := Tally(log), Ranking(log), Count(log, log[0].0);
    TallyAt(log, log[0].0);
    FirstSeenStaysFirst(log);
    ViewAt(t, 0);
    RankingFacts(log);
    SortIsStable(t, false);
    assert t[0].1.value == n;
    assert KeysOf(log)[0] == log[0].0 && Count(log, log[0].0) > 0;
    var i :| 0 <= i < |top| && top[i].0 == log[0].0;
    assert top[0].1.value == n;
    WithCountHead(t, n);
    WithCountHead(top, n);
  }

  function Name(i: nat): (r: NodeId)
    ensures |r| == i
  {
    seq(i, _ => 'x')
  }

  lemma NamesDiffer(i: nat, j: nat)
    requires i != j
    ensures Name(i) != Name(j)
  {}

  function Slot(m: nat, start: nat, i: nat): nat
    requires start <= m
  {
    if i >= m then i else if i + start < m then i + start else i + start - m
  }

  /** `n` nodes with code 200; the first `m` of them are listed from the `start`-th on, cyclically. */
  function Cycle(n: nat, m: nat, start: nat): (r: Status)
    requires m <= n && start <= m
    ensures |r| == n && forall i :: 0 <= i < n ==> r[i] == (Name(Slot(m, start, i)), 200)
  {
    seq(n, i requires 0 <= i < n => (Name(Slot(m, start, i)), 200))
  }

  /** The first `q` nodes send one record, the next `q` another one for the same key. */
  function Split(q: nat): map<NodeId, Rec> {
    map i | 0 <= i < 2 * q :: Name(i) := Sent(q, i)
  }

  lemma CycleView(n: nat, m: nat, start: nat)
    requires m <= n && start <= m
    ensures UniqueKeys(Cycle(n, m, start))
    ensures View(Cycle(n, m, start)) == AllAnswer(n)
  {
    var c := Cycle(n, m, start);
    forall i, j | 0 <= i < j < n ensures c[i].0 != c[j].0 {
      NamesDiffer(Slot(m, start, i), Slot(m, start, j));
    }
    forall x | x in View(c) ensures View(c)[x] == 200 && exists i :: 0 <= i < n && x == Name(i) {
      var i := KeyIndex(c, x);
      ViewAt(c, i);
      assert x == Name(Slot(m, start, i)) && Slot(m, start, i) < n;
    }
    forall i | 0 <= i < n ensures Name(i) in View(c) {
      var p := if i >= m then i else if i >= start then i - start else i + m - start;
      assert c[p].0 == Name(Slot(m, start, p)) == Name(i);
      ViewAt(c, p);
    }
  }

  lemma {:induction false} NamesBetween(lo: nat, hi: nat, names: set<NodeId>)
    requires lo <= hi && names == set i | lo <= i < hi :: Name(i)
    ensures |names| == hi - lo
    decreases hi
  {
    if lo < hi {
      var fewer := set i | lo <= i < hi - 1 :: Name(i);
      NamesBetween(lo, hi - 1, fewer);
      assert Name(hi - 1) !in fewer by {
        forall i | lo <= i < hi - 1 ensures Name(i) != Name(hi - 1) {
          assert |Name(i)| != |Name(hi - 1)|;
        }
      }
      assert names == fewer + {Name(hi - 1)};
    } else {
      assert names == {};
    }
  }

  /** The record that the i-th node sends. */
  function Sent(q: nat, i: nat): Rec {
    Rec("key", None, if i < q then "a" else "b")
  }

  lemma SplitAt(q: nat, i: nat)
    requires i < 2 * q
    ensures Name(i) in Split(q) && Split(q)[Name(i)] == Sent(q, i)
  {}

  function AllAnswer(n: nat): StatusView {
    map i | 0 <= i < n :: Name(i) := 200
  }

  lemma SplitSupporters(n: nat, q: nat, r: Rec)
    requires 2 * q <= n
    ensures Supporters(AllAnswer(n), Split(q), r) == set i | 0 <= i < 2 * q && Sent(q, i) == r :: Name(i)
  {}

  lemma SplitSupport(n: nat, q: nat, r: Rec)
    requires 2 * q <= n
    ensures |Supporters(AllAnswer(n), Split(q), r)| == if r in {Sent(q, 0), Sent(q, q)} && q > 0 then q else 0
  {
    SplitSupporters(n, q, r);
    var supporters := Supporters(AllAnswer(n), Split(q), r);
    if q > 0 && r == Sent(q, 0) {
      assert supporters == set i | 0 <= i < q :: Name(i);
      NamesBetween(0, q, supporters);
    } else if q > 0 && r == Sent(q, q) {
      assert supporters == set i | q <= i < 2 * q :: Name(i);
      NamesBetween(q, 2 * q, supporters);
    } else {
      assert supporters == {};
    }
  }

  lemma {:induction false} RecordsStart(status: Status, items: map<NodeId, Rec>)
    requires status != [] && status[0].1 == 200 && status[0].0 in items
    ensures RecordsOf(status, items) != [] && RecordsOf(status, items)[0].0 == items[status[0].0]
  {
    if |status| > 1 {
      RecordsStart(status[..|status| - 1], items);
    }
  }

  lemma SplitChoice(n: nat, q: nat, start: nat)
    requires 1 <= q && 2 * q <= n && start in {0, q}
    ensures Items(Cycle(n, 2 * q, start), [("key", Split(q))], q) == [Sent(q, start)]
  {
    var status, items := Cycle(n, 2 * q, start), Split(q);
    var log := RecordsOf(status, items);
    CycleView(n, 2 * q, start);
    assert status[0].0 == Name(start);
    SplitAt(q, start);
    RecordsStart(status, items);
    RecordsFacts(status, items);
    forall r ensures Count(log, r) == if r in {Sent(q, 0), Sent(q, q)} then q else 0 {
      CountIsSupport(status, items, r);
      SplitSupport(n, q, r);
    }
    TieGoesToFirst(log, q);
    var keys: KeyItems := [("key", items)];
    assert Items(status, keys[..0], q) == [];
  }

  /** The order of arrival never matters for `n` nodes and threshold `q`. */
  ghost predicate NeverOrderDependent(n: nat, q: int) {
    forall status: Status, keys: KeyItems, status': Status, keys': KeyItems ::
      WellFormed(status, keys) && WellFormed(status', keys') &&
      View(status) == View(status') && View(keys) == View(keys') && |status| == n ==>
        SameReply(Grouped(status, keys, q), Grouped(status', keys', q))
  }

  lemma RepliersAtMost(status: Status)
    requires UniqueKeys(status)
    ensures |Repliers(View(status))| <= |status|
  {
    var names := seq(|status|, i requires 0 <= i < |status| => status[i].0);
    DistinctIffFull(names);
    forall n | n in Repliers(View(status)) ensures n in Elems(names) {
      var i := KeyIndex(status, n);
      assert names[i] == n;
    }
    SubsetSize(Repliers(View(status)), Elems(names));
  }

  lemma MajoritySuffices(n: nat, q: int)
    requires q >= 1 && 2 * q > n
    ensures NeverOrderDependent(n, q)
  {
    hide SameReply, WellFormed, Grouped;
    forall status: Status, keys: KeyItems, status': Status, keys': KeyItems |
      WellFormed(status, keys) && WellFormed(status', keys') &&
      View(status) == View(status') && View(keys) == View(keys') && |status| == n
      ensures SameReply(Grouped(status, keys, q), Grouped(status', keys', q))
    {
      assert UniqueKeys(status) by { WellFormedUnique(status, keys); }
      RepliersAtMost(status);
      OrderIrrelevant(status, keys, status', keys', q);
    }
  }

  lemma WellFormedUnique(status: Status, keys: KeyItems)
    requires WellFormed(status, keys)
    ensures UniqueKeys(status)
  {}

  /** Half of the nodes against the other half: which record wins depends on who answered first. */
  lemma TieDependsOnOrder(n: nat, q: nat)
    requires q >= 1 && 2 * q <= n
    ensures var keys: KeyItems := [("key", Split(q))];
            var status, status' := Cycle(n, 2 * q, 0), Cycle(n, 2 * q, q);
            && WellFormed(status, keys) && WellFormed(status', keys) && View(status) == View(status')
            && !SameReply(Grouped(status, keys, q), Grouped(status', keys, q))
  {
    hide Cycle, Split, Items, Missing, View, AllAnswer;
    var keys: KeyItems := [("key", Split(q))];
    CycleView(n, 2 * q, 0);
    CycleView(n, 2 * q, q);
    SplitWellKeyed(q);
    SplitChoice(n, q, 0);
    SplitChoice(n, q, q);
    assert Sent(q, 0) in multiset([Sent(q, 0)]) && Sent(q, 0) !in multiset([Sent(q, q)]);
  }

  lemma SplitWellKeyed(q: nat)
    ensures WellKeyed([("key", Split(q))])
  {}

  /** Exactly a strict majority makes merging independent of the order of arrival. */
  lemma OrderIrrelevantIffMajority(n: nat, q: int)
    requires q >= 1
    ensures NeverOrderDependent(n, q) <==> 2 * q > n
  {
    hide SameReply, WellFormed, Grouped;
    if 2 * q > n {
      MajoritySuffices(n, q);
    } else {
      TieDependsOnOrder(n, q);
    }
  }

  // ---------------------------------------------------------------- the summary of a reply

  /** The nodes that answered with any 2xx code. */
  function Answered(s: StatusView): set<NodeId> {
    set n | n in s && 200 <= s[n] < 300
  }

  /** Some key is disputed, so it is listed as missing. */
  ghost predicate SomethingDisputed(s: StatusView, k: KeyView, q: int) {
    exists key :: key in k && Disputed(s, k[key], q)
  }

  /** Some record was sent by enough nodes. */
  ghost predicate SomethingSupported(s: StatusView, k: KeyView, q: int) {
    exists key, r :: key in k && |Supporters(s, k[key], r)| >= q
  }

  /**
   What the result code says: too few nodes answered; or everything is undisputed; or something is disputed,
   with or without any record that enough nodes sent. The last timestamp is the greatest of the items'.
   */
  lemma SummaryExact(status: Status, keys: KeyItems, q: int)
    requires WellFormed(status, keys) && q >= 1
    ensures var reply, s, k := Grouped(status, keys, q), View(status), View(keys);
            && (reply.quorumResult == QuorumFailedNodeReplies <==> |Answered(s)| < q)
            && (reply.quorumResult == QuorumOk <==> |Answered(s)| >= q && !SomethingDisputed(s, k, q))
            && (reply.quorumResult == QuorumOkPartial <==>
                  |Answered(s)| >= q && SomethingDisputed(s, k, q) && SomethingSupported(s, k, q))
            && (reply.quorumResult == QuorumFailedByMinItems <==>
                  |Answered(s)| >= q && SomethingDisputed(s, k, q) && !SomethingSupported(s, k, q))
    ensures var reply := Grouped(status, keys, q);
            && (forall r :: r in reply.items && r.ts.Some? ==> r.ts.value <= reply.lastTs)
            && (reply.lastTs == 0.0 || exists r :: r in reply.items && r.ts == Some(reply.lastTs))
            && reply.lastTs >= 0.0
  {
    hide Disputed, Supporters, Items, Missing, LastTs, GoodReplies;
    var reply, s, k := Grouped(status, keys, q), View(status), View(keys);
    QuorumExact(status, keys, q);
    GoodRepliesCount(status);
    LastTsIsGreatest(reply.items);
    if reply.keysWithoutQuorum != [] {
      var key := reply.keysWithoutQuorum[0];
      assert key in reply.keysWithoutQuorum && key in k && Disputed(s, k[key], q);
    }
    if key :| key in k && Disputed(s, k[key], q) {
      assert key in reply.keysWithoutQuorum;
    }
    if reply.items != [] {
      var r := reply.items[0];
      assert r in reply.items && r.skey in k && |Supporters(s, k[r.skey], r)| >= q;
    }
    if key, r :| key in k && |Supporters(s, k[key], r)| >= q {
      var item :| item in reply.items && item.skey == key;
    }
  }

  // ---------------------------------------------------------------- the two thresholds of the node

  function Ceil(x: real): int {
    -(-x).Floor
  }

  function Round(x: real): int {
    (x + 0.5).Floor
  }

  /** The numbers that a program gets for 0.6 and 0.51 in binary64 arithmetic. */
  const READ_QUORUM_PERC := 5404319552844595.0 / 9007199254740992.0
  const READ_QUORUM_PERC_INITDID := 4593671619917906.0 / 9007199254740992.0

  /** No JavaScript array is longer. */
  const MAX_ARRAY_LENGTH := 0xFFFF_FFFF

  /** A multiple of 1/1024. */
  function Dyadic(k: nat): real {
    k as real / 1024.0
  }

  /** Binary64 rounding: it keeps the order, and keeps the multiples of 1/1024 that have at most 53 bits. */
  ghost predicate RoundsLikeDouble(fl: real -> real) {
    && (forall x: real, y: real :: x <= y ==> fl(x) <= fl(y))
    && (forall k: nat :: k <= 0x20_0000_0000_0000 ==> fl(Dyadic(k)) == Dyadic(k))
  }

  function ReadQuorum(fl: real -> real, total: nat): int {
    Ceil(fl(READ_QUORUM_PERC * total as real))
  }

  function ReadQuorumInitDid(fl: real -> real, total: nat): int {
    Round(fl(READ_QUORUM_PERC_INITDID * total as real))
  }

  /** A bound that is a multiple of 1/1024 holds after rounding when it holds before. */
  lemma RoundedBounds(fl: real -> real, x: real, k: nat)
    requires RoundsLikeDouble(fl) && k <= 0x20_0000_0000_0000
    ensures k as real / 1024.0 <= x ==> k as real / 1024.0 <= fl(x)
    ensures x <= k as real / 1024.0 ==> fl(x) <= k as real / 1024.0
  {
    assert fl(Dyadic(k)) == Dyadic(k);
  }

  lemma ReadQuorumIsMajority(fl: real -> real, total: nat)
    requires RoundsLikeDouble(fl) && 1 <= total <= MAX_ARRAY_LENGTH
    ensures 1 <= ReadQuorum(fl, total) <= total && 2 * ReadQuorum(fl, total) > total
  {
    var x := READ_QUORUM_PERC * total as real;
    RoundedBounds(fl, x, 512 * total + 1);
    RoundedBounds(fl, x, 1024 * total);
    assert (512 * total + 1) as real / 1024.0 == total as real / 2.0 + 1.0 / 1024.0;
    assert (1024 * total) as real / 1024.0 == total as real;
  }

  /** The threshold is three fifths of the nodes, rounded up, in spite of binary64 rounding. */
  lemma ReadQuorumExact(fl: real -> real, total: nat)
    requires RoundsLikeDouble(fl) && 1 <= total <= MAX_ARRAY_LENGTH
    ensures ReadQuorum(fl, total) == (3 * total + 4) / 5
  {
    hide RoundsLikeDouble;
    var x, q := READ_QUORUM_PERC * total as real, (3 * total + 4) / 5;
    RoundedBounds(fl, x, 1024 * (q - 1) + 100);
    RoundedBounds(fl, x, 1024 * q);
    assert (1024 * q) as real / 1024.0 == q as real;
    assert (1024 * (q - 1) + 100) as real / 1024.0 == (q - 1) as real + 100.0 / 1024.0;
    assert x <= 3.0 * total as real / 5.0 <= q as real;
    assert 5 * (q - 1) + 1 <= 3 * total;
  }

  /** The other one is 51 percent, rounded to the nearest number and upwards from the middle. */
  lemma ReadQuorumInitDidExact(fl: real -> real, total: nat)
    requires RoundsLikeDouble(fl) && 1 <= total <= MAX_ARRAY_LENGTH
    ensures ReadQuorumInitDid(fl, total) == (51 * total + 50) / 100
  {
    hide RoundsLikeDouble, Round;
    var x, q := READ_QUORUM_PERC_INITDID * total as real, (51 * total + 50) / 100;
    RoundBetween(fl(x), q);
    assert 100 * q <= 51 * total + 50 <= 100 * q + 99;
    assert q >= 1;
    RoundedBounds(fl, x, 1024 * q - 512);
    RoundedBounds(fl, x, 1024 * q + 507);
    assert (1024 * q - 512) as real / 1024.0 == q as real - 0.5;
    assert (1024 * q + 507) as real / 1024.0 == q as real + 507.0 / 1024.0;
  }

  /** Reading transactions: whatever part of the nodes is polled, the threshold is a strict majority of it. */
  lemma TransactionsNeverOrderDependent(fl: real -> real, total: nat, polled: nat)
    requires RoundsLikeDouble(fl) && 1 <= total <= MAX_ARRAY_LENGTH && polled <= total
    ensures NeverOrderDependent(polled, ReadQuorum(fl, total))
  {
    ReadQuorumIsMajority(fl, total);
    OrderIrrelevantIffMajority(polled, ReadQuorum(fl, total));
  }

  lemma RoundBetween(y: real, n: int)
    ensures n as real - 0.5 <= y ==> Round(y) >= n
    ensures y < n as real + 0.5 ==> Round(y) <= n
  {}

  lemma InitDidMajorityIff(fl: real -> real, total: nat)
    requires RoundsLikeDouble(fl) && 1 <= total <= MAX_ARRAY_LENGTH
    ensures ReadQuorumInitDid(fl, total) >= 1
    ensures 2 * ReadQuorumInitDid(fl, total) > total <==> total % 2 == 1 || total >= 50
  {
    hide RoundsLikeDouble, Round;
    var x, half := READ_QUORUM_PERC_INITDID * total as real, total as real / 2.0;
    var y := fl(x);
    RoundedBounds(fl, x, 512 * total);
    assert half <= y;
    RoundBetween(y, 1);
    if total % 2 == 1 {
      RoundBetween(y, (total + 1) / 2);
    } else if total >= 50 {
      RoundedBounds(fl, x, 512 * total + 512);
      RoundBetween(y, total / 2 + 1);
    } else {
      RoundedBounds(fl, x, 512 * total + 500);
      RoundBetween(y, total / 2);
    }
  }

  /** Reading account information: the order of arrival is irrelevant exactly for odd or at least 50 nodes. */
  lemma AccountInfoOrderExact(fl: real -> real, total: nat)
    requires RoundsLikeDouble(fl) && 1 <= total <= MAX_ARRAY_LENGTH
    ensures NeverOrderDependent(total, ReadQuorumInitDid(fl, total)) <==> total % 2 == 1 || total >= 50
  {
    InitDidMajorityIff(fl, total);
    OrderIrrelevantIffMajority(total, ReadQuorumInitDid(fl, total));
  }
}
