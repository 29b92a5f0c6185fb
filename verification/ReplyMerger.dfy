/** Merging the replies of many nodes: a record is believed when enough nodes sent the same one. */
module ReplyMerger {
  import opened Prelude
  import opened OrderedMap
  import opened StringCounter

  /** One record from one node. Its digest is taken to be free of collisions, so the record stands for it. */
  datatype Rec = Rec(skey: string, ts: Option<real>, payload: string)

  datatype QuorumResult = QuorumOk | QuorumOkPartial | QuorumFailedNodeReplies | QuorumFailedByMinItems

  datatype ReplyGrouped = ReplyGrouped(
    items: seq<Rec>, keysWithoutQuorum: seq<string>, quorumResult: QuorumResult, lastTs: real)

  type Status = seq<(NodeId, int)>
  type KeyItems = seq<(string, map<NodeId, Rec>)>

  // ---------------------------------------------------------------- one key

  /** The records of one key from the nodes that replied with code 200, in reply order. */
  function RecordsOf(status: Status, items: map<NodeId, Rec>): seq<(Rec, Rec)> {
    if status == [] then []
    else
      var front := RecordsOf(status[..|status| - 1], items);
      var (nodeId, code) := status[|status| - 1];
      if code == 200 && nodeId in items then front + [(items[nodeId], items[nodeId])] else front
  }

  function Ranking(log: seq<(Rec, Rec)>): seq<(Rec, ValueHolder<Rec>)> {
    SortByCount(Tally(log), false)
  }

  /** The record that is taken for a key, if its count reaches the threshold. */
  function Chosen(log: seq<(Rec, Rec)>, minQuorumThreshold: int): seq<Rec> {
    var r := Ranking(log);
    if r != [] && r[0].1.value >= minQuorumThreshold && r[0].1.incrementCtx != [] then [r[0].1.incrementCtx[0]] else []
  }

  predicate Missed(log: seq<(Rec, Rec)>, minQuorumThreshold: int) {
    var r := Ranking(log);
    r != [] && (r[0].1.value < minQuorumThreshold || |r| > 1)
  }

  // ---------------------------------------------------------------- all keys

  function Items(status: Status, keys: KeyItems, q: int): seq<Rec> {
    if keys == [] then []
    else Items(status, keys[..|keys| - 1], q) + Chosen(RecordsOf(status, keys[|keys| - 1].1), q)
  }

  function Missing(status: Status, keys: KeyItems, q: int): seq<string> {
    if keys == [] then []
    else
      var front, last := Missing(status, keys[..|keys| - 1], q), keys[|keys| - 1];
      if Missed(RecordsOf(status, last.1), q) then AddNew(front, last.0) else front
  }

  function GoodReplies(status: Status): nat {
    if status == [] then 0
    else GoodReplies(status[..|status| - 1]) + if 200 <= status[|status| - 1].1 < 300 then 1 else 0
  }

  function LastTs(items: seq<Rec>): real {
    if items == [] then 0.0
    else
      var front, ts := LastTs(items[..|items| - 1]), items[|items| - 1].ts;
      if ts.Some? && ts.value > front then ts.value else front
  }

  function ResultOf(good: nat, itemCount: nat, missingCount: nat, q: int): QuorumResult {
    if good < q then QuorumFailedNodeReplies
    else if itemCount == 0 then (if missingCount > 0 then QuorumFailedByMinItems else QuorumOk)
    else if missingCount > 0 then QuorumOkPartial
    else QuorumOk
  }

  function Grouped(status: Status, keys: KeyItems, q: int): ReplyGrouped {
    var items, missing := Items(status, keys, q), Missing(status, keys, q);
    ReplyGrouped(items, missing, ResultOf(GoodReplies(status), |items|, |missing|, q), LastTs(items))
  }

  /** Every record is stored under its own key. */
  ghost predicate WellKeyed(keys: KeyItems) {
    forall i, n :: 0 <= i < |keys| && n in keys[i].1 ==> keys[i].1[n].skey == keys[i].0
  }

  // ---------------------------------------------------------------- the merger

  class Merger {
    var mapNodeToStatus: Status
    var mapKeyToNodeItems: KeyItems

    ghost predicate Valid()
      reads this
    {
      UniqueKeys(mapNodeToStatus) && UniqueKeys(mapKeyToNodeItems) && WellKeyed(mapKeyToNodeItems)
    }

    constructor ()
      ensures Valid() && mapNodeToStatus == [] && mapKeyToNodeItems == []
    {
      mapNodeToStatus, mapKeyToNodeItems := [], [];
    }

    method AppendHttpCode(nodeId: NodeId, nodeHttpStatus: int)
      requires Valid()
      modifies this`mapNodeToStatus
      ensures Valid() && mapNodeToStatus == Put(old(mapNodeToStatus), nodeId, nodeHttpStatus)
      ensures View(mapNodeToStatus) == View(old(mapNodeToStatus))[nodeId := nodeHttpStatus]
    {
      PutView(mapNodeToStatus, nodeId, nodeHttpStatus);
      mapNodeToStatus := Put(mapNodeToStatus, nodeId, nodeHttpStatus);
    }

    method AppendItem(nodeId: NodeId, rec: Rec) returns (r: Result<()>)
      requires Valid()
      modifies this`mapKeyToNodeItems
      ensures Valid()
      ensures r.Ok? <==> nodeId in View(mapNodeToStatus)
      ensures mapKeyToNodeItems == if r.Ok? then PutItem(old(mapKeyToNodeItems), nodeId, rec) else old(mapKeyToNodeItems)
    {
      GetIsView(mapNodeToStatus, nodeId);
      if Get(mapNodeToStatus, nodeId).None? {
        return Thrown("call appendHttpCode before appendSingleItem");
      }
      PutItemView(mapKeyToNodeItems, nodeId, rec);
      mapKeyToNodeItems := PutItem(mapKeyToNodeItems, nodeId, rec);
      return Ok(());
    }

    method Group(minQuorumThreshold: int) returns (reply: ReplyGrouped)
      requires Valid()
      ensures reply == Grouped(mapNodeToStatus, mapKeyToNodeItems, minQuorumThreshold)
    {
      hide Chosen, Missed, RecordsOf, GoodReplies, UniqueKeys, ResultOf;
      var status, keys := mapNodeToStatus, mapKeyToNodeItems;
      var goodReplies := CountGoodReplies();
      var items: seq<Rec>, keysWithoutQuorumSet: seq<string>, lastTs := [], [], 0.0;
      for i := 0 to |keys|
        invariant mapNodeToStatus == status && mapKeyToNodeItems == keys
        invariant items == Items(status, keys[..i], minQuorumThreshold)
        invariant keysWithoutQuorumSet == Missing(status, keys[..i], minQuorumThreshold)
        invariant lastTs == LastTs(items)
      {
        assert keys[..i + 1][..i] == keys[..i];
        var chosen, missed := GroupKey(keys[i].0, keys[i].1, minQuorumThreshold);
        if chosen == [] {
          assert items + chosen == items;
        } else {
          assert (items + chosen)[..|items|] == items;
          if chosen[0].ts.Some? && chosen[0].ts.value > lastTs {
            lastTs := chosen[0].ts.value;
          }
        }
        items := items + chosen;
        if missed {
          keysWithoutQuorumSet := AddNew(keysWithoutQuorumSet, keys[i].0);
        }
      }
      assert keys[..|keys|] == keys;
      var quorumResult := ResultOf(goodReplies, |items|, |keysWithoutQuorumSet|, minQuorumThreshold);
      return ReplyGrouped(items, keysWithoutQuorumSet, quorumResult, lastTs);
    }

    method CountGoodReplies() returns (goodReplies: nat)
      ensures goodReplies == GoodReplies(mapNodeToStatus)
    {
      var status := mapNodeToStatus;
      goodReplies := 0;
      for i := 0 to |status|
        invariant goodReplies == GoodReplies(status[..i])
      {
        assert status[..i + 1][..i] == status[..i];
        if status[i].1 >= 200 && status[i].1 < 300 {
          goodReplies := goodReplies + 1;
        }
      }
      assert status[..|status|] == status;
    }

    /** How many nodes with code 200 sent each record of one key. */
    method CountRecords(items: map<NodeId, Rec>) returns (sc: Counter<Rec, Rec>)
      ensures fresh(sc) && sc.Valid() && sc.entries == Tally(RecordsOf(mapNodeToStatus, items))
    {
      hide Incremented, UniqueKeys;
      var status := mapNodeToStatus;
      sc := new Counter<Rec, Rec>();
      for i := 0 to |status|
        invariant mapNodeToStatus == status && fresh(sc) && sc.Valid()
        invariant sc.entries == Tally(RecordsOf(status[..i], items))
      {
        var (nodeId, code) := status[i];
        assert status[..i + 1][..i] == status[..i];
        if code == 200 && nodeId in items {
          ghost var log := RecordsOf(status[..i], items);
          assert (log + [(items[nodeId], items[nodeId])])[..|log|] == log;
          sc.Increment(items[nodeId], items[nodeId]);
        }
      }
      assert status[..|status|] == status;
    }

    /** The counting for one key, and the callback that is run over the sorted counts. */
    method GroupKey(skey: string, items: map<NodeId, Rec>, minQuorumThreshold: int) returns (chosen: seq<Rec>, missed: bool)
      requires forall n :: n in items ==> items[n].skey == skey
      ensures chosen == Chosen(RecordsOf(mapNodeToStatus, items), minQuorumThreshold) && |chosen| <= 1
      ensures missed == Missed(RecordsOf(mapNodeToStatus, items), minQuorumThreshold)
    {
      hide Tally, RecordsOf, SortByCount, SortedByCount, UniqueKeys, WithCount;
      ghost var status := mapNodeToStatus;
      var sc := CountRecords(items);
      RecordsFacts(status, items);
      RankingFacts(RecordsOf(status, items));
      sc.Sort(false);
      chosen, missed := [], false;
      for index := 0 to |sc.entries|
        invariant sc.entries == Ranking(RecordsOf(status, items))
        invariant chosen == if index == 0 then [] else Chosen(RecordsOf(status, items), minQuorumThreshold)
        invariant missed <==> index > 0 && (sc.entries[0].1.value < minQuorumThreshold || index > 1)
      {
        if index == 0 && sc.entries[0].1.value >= minQuorumThreshold {
          chosen := [sc.entries[0].1.incrementCtx[0]];
        } else {
          // the first record of the entry carries the key of this group
          assert sc.entries[index].1.incrementCtx[0].skey == skey;
          missed := true;
        }
      }
    }
  }

  function PutItem(keys: KeyItems, nodeId: NodeId, rec: Rec): KeyItems {
    var map2 := Get(keys, rec.skey);
    Put(keys, rec.skey, (if map2.Some? then map2.value else map[])[nodeId := rec])
  }

  lemma PutItemView(keys: KeyItems, nodeId: NodeId, rec: Rec)
    requires UniqueKeys(keys) && WellKeyed(keys)
    ensures UniqueKeys(PutItem(keys, nodeId, rec)) && WellKeyed(PutItem(keys, nodeId, rec))
    ensures View(PutItem(keys, nodeId, rec))
         == View(keys)[rec.skey := (if rec.skey in View(keys) then View(keys)[rec.skey] else map[])[nodeId := rec]]
  {
    GetIsView(keys, rec.skey);
    ViewKeys(keys);
    if rec.skey in View(keys) {
      var i :| 0 <= i < |keys| && keys[i].0 == rec.skey;
      ViewAt(keys, i);
    }
    PutView(keys, rec.skey, (if rec.skey in View(keys) then View(keys)[rec.skey] else map[])[nodeId := rec]);
  }

  // ---------------------------------------------------------------- what the ranking says

  lemma {:induction false} RecordsFacts(status: Status, items: map<NodeId, Rec>)
    ensures SelfContext(RecordsOf(status, items))
    ensures forall r :: Count(RecordsOf(status, items), r) > 0 ==> exists n :: n in items && items[n] == r
  {
    if status != [] {
      var front := status[..|status| - 1];
      var (nodeId, code) := status[|status| - 1];
      RecordsFacts(front, items);
      if code == 200 && nodeId in items {
        assert KeysOf(RecordsOf(status, items)) == KeysOf(RecordsOf(front, items)) + [items[nodeId]];
        forall r | Count(RecordsOf(status, items), r) > 0 ensures exists n :: n in items && items[n] == r {
          if r != items[nodeId] {
            assert Count(RecordsOf(front, items), r) > 0;
          }
        }
      }
    }
  }

  lemma RankingFacts(log: seq<(Rec, Rec)>)
    requires SelfContext(log)
    ensures forall i :: 0 <= i < |Ranking(log)| ==> Holds(Ranking(log)[i].1, Ranking(log)[i].0, Count(log, Ranking(log)[i].0))
    ensures forall r :: Count(log, r) > 0 ==> exists i :: 0 <= i < |Ranking(log)| && Ranking(log)[i].0 == r
    ensures forall i :: 0 < i < |Ranking(log)| ==> Ranking(log)[i].1.value <= Ranking(log)[0].1.value
    ensures UniqueKeys(Ranking(log))
  {
    var t, r := Tally(log), Ranking(log);
    TallyUnique(log);
    SortIsStable(t, false);
    PermutationBasics(t, r);
    forall i | 0 <= i < |r| ensures Holds(r[i].1, r[i].0, Count(log, r[i].0)) {
      var j := PermutationIndex(r, t, i);
      ViewAt(t, j);
      TallyAt(log, r[i].0);
    }
    forall k | Count(log, k) > 0 ensures exists i :: 0 <= i < |r| && r[i].0 == k {
      TallyAt(log, k);
      var j := KeyIndex(t, k);
      var i := PermutationIndex(t, r, j);
    }
    PermutedUnique(t, r);
  }

  /** What is chosen and what is missed, in terms of counts alone. */
  lemma ChosenMeans(log: seq<(Rec, Rec)>, q: int)
    requires SelfContext(log) && q >= 1
    ensures |Chosen(log, q)| <= 1
    ensures Chosen(log, q) == [] ==> forall r :: Count(log, r) < q
    ensures forall r :: r in Chosen(log, q) ==> Count(log, r) >= q && forall x :: Count(log, x) <= Count(log, r)
  {
    RankingFacts(log);
    var top := Ranking(log);
    forall x | Count(log, x) > 0 ensures top != [] && Count(log, x) <= Count(log, top[0].0) {
      var i :| 0 <= i < |top| && top[i].0 == x;
    }
  }

  lemma MissedMeans(log: seq<(Rec, Rec)>, q: int)
    requires SelfContext(log)
    ensures Missed(log, q) <==>
              && (exists r :: Count(log, r) > 0)
              && ((forall r :: Count(log, r) > 0 ==> Count(log, r) < q) ||
                  (exists r, s :: r != s && Count(log, r) > 0 && Count(log, s) > 0))
  {
    RankingFacts(log);
    var top := Ranking(log);
    if top != [] {
      assert Count(log, top[0].0) > 0;
      if |top| > 1 {
        assert top[0].0 != top[1].0 && Count(log, top[1].0) > 0;
      } else {
        forall r, s | Count(log, r) > 0 && Count(log, s) > 0 ensures r == s {
          var i :| 0 <= i < |top| && top[i].0 == r;
          var j :| 0 <= j < |top| && top[j].0 == s;
        }
      }
      forall r | Count(log, r) > 0 ensures Count(log, r) <= top[0].1.value {
        var i :| 0 <= i < |top| && top[i].0 == r;
      }
    }
  }
}
