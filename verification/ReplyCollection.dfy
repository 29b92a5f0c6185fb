/** Filling the merger from the replies of the queried nodes, in the order in which they are processed. */
module ReplyCollection {
  import opened Prelude
  import opened OrderedMap
  import opened ReplyMerger
  import opened Quorum

  datatype Outcome = Timeout | RpcError | Records(records: seq<Rec>)
  datatype NodeReply = NodeReply(nodeId: NodeId, outcome: Outcome)

  function Code(o: Outcome): int {
    match o
    case Timeout => 0
    case RpcError => 500
    case Records(_) => 200
  }

  function StatusAfter(replies: seq<NodeReply>): Status {
    if replies == [] then []
    else
      var last := replies[|replies| - 1];
      Put(StatusAfter(replies[..|replies| - 1]), last.nodeId, Code(last.outcome))
  }

  function PutAll(keys: KeyItems, nodeId: NodeId, records: seq<Rec>): KeyItems {
    if records == [] then keys
    else PutItem(PutAll(keys, nodeId, records[..|records| - 1]), nodeId, records[|records| - 1])
  }

  function RecordList(o: Outcome): seq<Rec> {
    if o.Records? then o.records else []
  }

  function KeysAfter(replies: seq<NodeReply>): KeyItems {
    if replies == [] then []
    else
      var last := replies[|replies| - 1];
      PutAll(KeysAfter(replies[..|replies| - 1]), last.nodeId, RecordList(last.outcome))
  }

  method Collect(replies: seq<NodeReply>) returns (merger: Merger)
    ensures fresh(merger) && merger.Valid()
    ensures merger.mapNodeToStatus == StatusAfter(replies) && merger.mapKeyToNodeItems == KeysAfter(replies)
  {
    merger := new Merger();
    for i := 0 to |replies|
      invariant fresh(merger) && merger.Valid()
      invariant merger.mapNodeToStatus == StatusAfter(replies[..i])
      invariant merger.mapKeyToNodeItems == KeysAfter(replies[..i])
    {
      assert replies[..i + 1][..i] == replies[..i];
      var NodeReply(nodeId, outcome) := replies[i];
      merger.AppendHttpCode(nodeId, Code(outcome));
      if outcome.Records? {
        for j := 0 to |outcome.records|
          invariant fresh(merger) && merger.Valid()
          invariant merger.mapNodeToStatus == StatusAfter(replies[..i + 1])
          invariant nodeId in View(merger.mapNodeToStatus)
          invariant merger.mapKeyToNodeItems == PutAll(KeysAfter(replies[..i]), nodeId, outcome.records[..j])
        {
          assert outcome.records[..j + 1][..j] == outcome.records[..j];
          var added := merger.AppendItem(nodeId, outcome.records[j]);
        }
        assert outcome.records[..|outcome.records|] == outcome.records;
      }
    }
    assert replies[..|replies|] == replies;
  }

  // ---------------------------------------------------------------- what the merger holds afterwards

  ghost predicate DistinctNodes(replies: seq<NodeReply>) {
    forall i, j :: 0 <= i < j < |replies| ==> replies[i].nodeId != replies[j].nodeId
  }

  /** The record of a key that a node's reply leaves behind: the last one it sent. */
  function RecordFor(records: seq<Rec>, key: string): Option<Rec> {
    if records == [] then None
    else if records[|records| - 1].skey == key then Some(records[|records| - 1])
    else RecordFor(records[..|records| - 1], key)
  }

  ghost function Entry(keys: KeyItems, key: string): map<NodeId, Rec> {
    if key in View(keys) then View(keys)[key] else map[]
  }

  lemma {:induction false} StatusAfterAt(replies: seq<NodeReply>, i: nat)
    requires DistinctNodes(replies) && i < |replies|
    ensures UniqueKeys(StatusAfter(replies))
    ensures replies[i].nodeId in View(StatusAfter(replies))
    ensures View(StatusAfter(replies))[replies[i].nodeId] == Code(replies[i].outcome)
  {
    var front, last := replies[..|replies| - 1], replies[|replies| - 1];
    StatusAfterKeys(front);
    PutView(StatusAfter(front), last.nodeId, Code(last.outcome));
    if i < |front| {
      StatusAfterAt(front, i);
    }
  }

  lemma {:induction false} StatusAfterKeys(replies: seq<NodeReply>)
    ensures UniqueKeys(StatusAfter(replies))
    ensures forall n :: n in View(StatusAfter(replies)) ==> exists i :: 0 <= i < |replies| && replies[i].nodeId == n
  {
    if replies != [] {
      var front, last := replies[..|replies| - 1], replies[|replies| - 1];
      StatusAfterKeys(front);
      PutView(StatusAfter(front), last.nodeId, Code(last.outcome));
      forall n | n in View(StatusAfter(replies)) ensures exists i :: 0 <= i < |replies| && replies[i].nodeId == n {
        if n != last.nodeId {
          var i :| 0 <= i < |front| && front[i].nodeId == n;
          assert replies[i].nodeId == n;
        }
      }
    }
  }

  lemma StatusAfterPermuted(rs: seq<NodeReply>, ts: seq<NodeReply>)
    requires DistinctNodes(rs) && DistinctNodes(ts) && Permutation(rs, ts)
    ensures View(StatusAfter(rs)) == View(StatusAfter(ts))
  {
    var v, w := View(StatusAfter(rs)), View(StatusAfter(ts));
    StatusAfterKeys(rs);
    StatusAfterKeys(ts);
    forall n | n in v ensures n in w && w[n] == v[n] {
      var i :| 0 <= i < |rs| && rs[i].nodeId == n;
      var j := PermutationIndex(rs, ts, i);
      StatusAfterAt(rs, i);
      StatusAfterAt(ts, j);
    }
    forall n | n in w ensures n in v {
      var i :| 0 <= i < |ts| && ts[i].nodeId == n;
      var j := PermutationIndex(ts, rs, i);
      StatusAfterAt(rs, j);
    }
  }

  lemma {:induction false} PutAllEntry(keys: KeyItems, nodeId: NodeId, records: seq<Rec>, key: string)
    requires UniqueKeys(keys) && WellKeyed(keys)
    ensures UniqueKeys(PutAll(keys, nodeId, records)) && WellKeyed(PutAll(keys, nodeId, records))
    ensures Entry(PutAll(keys, nodeId, records), key)
         == if RecordFor(records, key).Some? then Entry(keys, key)[nodeId := RecordFor(records, key).value] else Entry(keys, key)
    ensures key in View(PutAll(keys, nodeId, records)) <==> key in View(keys) || RecordFor(records, key).Some?
  {
    if records != [] {
      var front, last := records[..|records| - 1], records[|records| - 1];
      PutAllEntry(keys, nodeId, front, key);
      PutItemView(PutAll(keys, nodeId, front), nodeId, last);
    }
  }

  lemma {:induction false} KeysAfterWellFormed(replies: seq<NodeReply>)
    ensures UniqueKeys(KeysAfter(replies)) && WellKeyed(KeysAfter(replies))
  {
    if replies != [] {
      var front, last := replies[..|replies| - 1], replies[|replies| - 1];
      KeysAfterWellFormed(front);
      PutAllEntry(KeysAfter(front), last.nodeId, RecordList(last.outcome), "");
    }
  }

  /** What a list of replies leaves behind for a key, read off the replies themselves. */
  ghost predicate LeavesBehind(replies: seq<NodeReply>, key: string, n: NodeId, r: Rec) {
    exists i :: 0 <= i < |replies| && replies[i].nodeId == n && RecordFor(RecordList(replies[i].outcome), key) == Some(r)
  }

  /** Position `m` has the last record of the key. */
  ghost predicate LastAt(records: seq<Rec>, key: string, m: nat) {
    m < |records| && records[m].skey == key && forall l :: m < l < |records| ==> records[l].skey != key
  }

  lemma {:induction false} RecordForMeans(records: seq<Rec>, key: string, m: nat)
    requires LastAt(records, key, m)
    ensures RecordFor(records, key) == Some(records[m])
  {
    if m < |records| - 1 {
      assert records[|records| - 1].skey != key;
      RecordForMeans(records[..|records| - 1], key, m);
    }
  }

  lemma {:induction false} RecordForExists(records: seq<Rec>, key: string) returns (m: nat)
    requires RecordFor(records, key).Some?
    ensures LastAt(records, key, m) && RecordFor(records, key) == Some(records[m])
  {
    var k := |records| - 1;
    if records[k].skey == key {
      m := k;
    } else {
      m := RecordForExists(records[..k], key);
      forall l | m < l < |records| ensures records[l].skey != key {
        assert l < k ==> records[..k][l] == records[l];
      }
    }
  }

  /** That is the last record of the key that the node sent, if it sent records at all. */
  lemma LeavesBehindMeans(replies: seq<NodeReply>, key: string, n: NodeId, r: Rec)
    ensures LeavesBehind(replies, key, n, r) <==>
              exists i, m: nat :: 0 <= i < |replies| && replies[i].nodeId == n && replies[i].outcome.Records? &&
                             LastAt(replies[i].outcome.records, key, m) && replies[i].outcome.records[m] == r
  {
    if LeavesBehind(replies, key, n, r) {
      var i :| 0 <= i < |replies| && replies[i].nodeId == n && RecordFor(RecordList(replies[i].outcome), key) == Some(r);
      var m := RecordForExists(RecordList(replies[i].outcome), key);
      assert replies[i].outcome.Records? && LastAt(replies[i].outcome.records, key, m);
    }
    if i, m: nat :| (0 <= i < |replies| && replies[i].nodeId == n && replies[i].outcome.Records? &&
                     LastAt(replies[i].outcome.records, key, m) && replies[i].outcome.records[m] == r) {
      RecordForMeans(replies[i].outcome.records, key, m);
    }
  }

  /** Only nodes that sent records count: a node that timed out or reported an error supports nothing. */
  lemma StatusMeans(replies: seq<NodeReply>, i: nat)
    requires DistinctNodes(replies) && i < |replies|
    ensures replies[i].nodeId in View(StatusAfter(replies))
    ensures View(StatusAfter(replies))[replies[i].nodeId] ==
              match replies[i].outcome
              case Timeout => 0
              case RpcError => 500
              case Records(_) => 200
    ensures replies[i].nodeId in Repliers(View(StatusAfter(replies))) <==> replies[i].outcome.Records?
    ensures replies[i].nodeId in Answered(View(StatusAfter(replies))) <==> replies[i].outcome.Records?
  {
    StatusAfterAt(replies, i);
  }

  lemma {:induction false} KeysAfterMeans(replies: seq<NodeReply>, key: string)
    requires DistinctNodes(replies)
    ensures forall n, r :: LeavesBehind(replies, key, n, r) <==> n in Entry(KeysAfter(replies), key) && Entry(KeysAfter(replies), key)[n] == r
    ensures key in View(KeysAfter(replies)) <==> Entry(KeysAfter(replies), key) != map[]
  {
    if replies != [] {
      var front, last := replies[..|replies| - 1], replies[|replies| - 1];
      KeysAfterMeans(front, key);
      KeysAfterWellFormed(front);
      PutAllEntry(KeysAfter(front), last.nodeId, RecordList(last.outcome), key);
      var rec := RecordFor(RecordList(last.outcome), key);
      forall n, r
        ensures LeavesBehind(replies, key, n, r) <==> LeavesBehind(front, key, n, r) || (n == last.nodeId && rec == Some(r))
      {
        LeavesBehindSplits(replies, key, n, r);
      }
      forall r ensures !LeavesBehind(front, key, last.nodeId, r) {
        assert forall i :: 0 <= i < |front| ==> front[i].nodeId == replies[i].nodeId != replies[|replies| - 1].nodeId;
      }
      if rec.Some? {
        assert last.nodeId in Entry(KeysAfter(replies), key);
      }
    }
  }

  lemma LeavesBehindSplits(replies: seq<NodeReply>, key: string, n: NodeId, r: Rec)
    requires replies != []
    ensures LeavesBehind(replies, key, n, r) <==>
              || LeavesBehind(replies[..|replies| - 1], key, n, r)
              || (n == replies[|replies| - 1].nodeId && RecordFor(RecordList(replies[|replies| - 1].outcome), key) == Some(r))
  {}

  lemma LeavesBehindPermuted(rs: seq<NodeReply>, ts: seq<NodeReply>, key: string, n: NodeId, r: Rec)
    requires Permutation(rs, ts) && LeavesBehind(rs, key, n, r)
    ensures LeavesBehind(ts, key, n, r)
  {
    var i :| 0 <= i < |rs| && rs[i].nodeId == n && RecordFor(RecordList(rs[i].outcome), key) == Some(r);
    var j := PermutationIndex(rs, ts, i);
  }

  lemma EntryPermuted(rs: seq<NodeReply>, ts: seq<NodeReply>, key: string)
    requires DistinctNodes(rs) && DistinctNodes(ts) && Permutation(rs, ts)
    ensures Entry(KeysAfter(rs), key) == Entry(KeysAfter(ts), key)
    ensures key in View(KeysAfter(rs)) <==> key in View(KeysAfter(ts))
  {
    var v, w := Entry(KeysAfter(rs), key), Entry(KeysAfter(ts), key);
    KeysAfterMeans(rs, key);
    KeysAfterMeans(ts, key);
    forall n | n in v ensures n in w && w[n] == v[n] {
      LeavesBehindPermuted(rs, ts, key, n, v[n]);
    }
    forall n | n in w ensures n in v {
      LeavesBehindPermuted(ts, rs, key, n, w[n]);
    }
  }

  lemma KeysAfterPermuted(rs: seq<NodeReply>, ts: seq<NodeReply>)
    requires DistinctNodes(rs) && DistinctNodes(ts) && Permutation(rs, ts)
    ensures View(KeysAfter(rs)) == View(KeysAfter(ts))
  {
    forall key
      ensures key in View(KeysAfter(rs)) <==> key in View(KeysAfter(ts))
      ensures key in View(KeysAfter(rs)) ==> View(KeysAfter(rs))[key] == View(KeysAfter(ts))[key]
    {
      EntryPermuted(rs, ts, key);
    }
  }

  /**
   The answer to a transaction query: of `total` nodes some are polled, each replies, fails or times
   out; the merged answer is the same whatever the order of the replies is.
   */
  lemma TransactionsAnswerOrderFree(fl: real -> real, total: nat, rs: seq<NodeReply>, ts: seq<NodeReply>)
    requires RoundsLikeDouble(fl) && 1 <= total <= MAX_ARRAY_LENGTH && |rs| <= total
    requires DistinctNodes(rs) && DistinctNodes(ts) && Permutation(rs, ts)
    ensures var q := ReadQuorum(fl, total);
            SameReply(Grouped(StatusAfter(rs), KeysAfter(rs), q), Grouped(StatusAfter(ts), KeysAfter(ts), q))
  {
    var q := ReadQuorum(fl, total);
    ReadQuorumIsMajority(fl, total);
    StatusAfterPermuted(rs, ts);
    KeysAfterPermuted(rs, ts);
    KeysAfterWellFormed(rs);
    KeysAfterWellFormed(ts);
    StatusAfterKeys(rs);
    StatusAfterKeys(ts);
    RepliersAtMost(StatusAfter(rs));
    StatusSize(rs);
    OrderIrrelevant(StatusAfter(rs), KeysAfter(rs), StatusAfter(ts), KeysAfter(ts), q);
  }

  /** With fewer polled nodes than the threshold asks for, no reply of any of them can make the query succeed. */
  lemma TooFewPolledFails(replies: seq<NodeReply>, q: int)
    requires |replies| < q
    ensures Grouped(StatusAfter(replies), KeysAfter(replies), q).quorumResult == QuorumFailedNodeReplies
    ensures Grouped(StatusAfter(replies), KeysAfter(replies), q).items == []
  {
    StatusSize(replies);
    GoodRepliesAtMost(StatusAfter(replies));
    StatusAfterKeys(replies);
    KeysAfterWellFormed(replies);
    var status, keys := StatusAfter(replies), KeysAfter(replies);
    QuorumExact(status, keys, q);
    RepliersAtMost(status);
    var items := Grouped(status, keys, q).items;
    assert items != [] ==> items[0] in items;
    forall r ensures r !in items {
      if r in items {
        SubsetSize(Supporters(View(status), View(keys)[r.skey], r), Repliers(View(status)));
      }
    }
  }

  lemma {:induction false} GoodRepliesAtMost(status: Status)
    ensures GoodReplies(status) <= |status|
  {
    if status != [] {
      GoodRepliesAtMost(status[..|status| - 1]);
    }
  }

  lemma {:induction false} PutSize<K, V>(m: seq<(K, V)>, k: K, v: V)
    ensures |m| <= |Put(m, k, v)| <= |m| + 1
  {
    if m != [] && m[0].0 != k {
      PutSize(m[1..], k, v);
    }
  }

  lemma {:induction false} StatusSize(replies: seq<NodeReply>)
    ensures |StatusAfter(replies)| <= |replies|
  {
    if replies != [] {
      var front, last := replies[..|replies| - 1], replies[|replies| - 1];
      StatusSize(front);
      PutSize(StatusAfter(front), last.nodeId, Code(last.outcome));
    }
  }
}
