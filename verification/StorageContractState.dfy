/** Which storage node hosts which shard, and the inverted index that queries use. */
module StorageContractState {
  import opened Prelude
  import opened BitUtil

  type NodeShards = map<NodeId, set<nat>>
  type ShardNodes = map<nat, set<NodeId>>

  /** The index is the exact inverse of the shard map and never lists an empty set. */
  ghost predicate Inverse(nodeShards: NodeShards, shardNodes: ShardNodes) {
    && (forall shard, n :: (shard in shardNodes && n in shardNodes[shard]) <==> (n in nodeShards && shard in nodeShards[n]))
    && (forall shard :: shard in shardNodes ==> shardNodes[shard] != {})
  }

  lemma NoShardYet(done: NodeShards, index: ShardNodes, n: NodeId)
    requires Inverse(done, index) && n !in done
    ensures Inverse(done[n := {}], index)
  {}

  lemma OneMoreShard(done: NodeShards, index: ShardNodes, n: NodeId, added: set<nat>, shard: nat)
    requires Inverse(done[n := added], index)
    ensures Inverse(done[n := added + {shard}], index[shard := (if shard in index then index[shard] else {}) + {n}])
  {
    var before, after := done[n := added], done[n := added + {shard}];
    var index' := index[shard := (if shard in index then index[shard] else {}) + {n}];
    forall s, m ensures (s in index' && m in index'[s]) <==> (m in after && s in after[m]) {
      assert (s in index && m in index[s]) <==> (m in before && s in before[m]);
    }
  }

  /** One contract event: the listed addresses with the masks that the contract reports for them. */
  type Event = seq<(NodeId, int)>

  function Reloaded(nodeShards: NodeShards, event: Event): NodeShards {
    if event == [] then nodeShards
    else
      var (nodeAddr, mask) := event[|event| - 1];
      Reloaded(nodeShards, event[..|event| - 1])[nodeAddr := Elems(Positions(mask))]
  }

  class StorageState {
    var nodeShardMap: NodeShards
    var shardToNodesMap: ShardNodes

    ghost predicate Valid()
      reads this
    {
      Inverse(nodeShardMap, shardToNodesMap)
    }

    constructor ()
      ensures Valid() && nodeShardMap == map[]
    {
      nodeShardMap, shardToNodesMap := map[], map[];
    }

    method ReloadEveryAddress(event: Event)
      modifies this
      ensures Valid() && nodeShardMap == Reloaded(old(nodeShardMap), event)
    {
      for i := 0 to |event|
        invariant nodeShardMap == Reloaded(old(nodeShardMap), event[..i])
      {
        assert event[..i + 1][..i] == event[..i];
        var (nodeAddr, nodeShardmask) := event[i];
        var positions := BitsToPositions(nodeShardmask);
        nodeShardMap := nodeShardMap[nodeAddr := Elems(positions)];
      }
      assert event[..|event|] == event;
      RebuildIndex();
    }

    method RebuildIndex()
      modifies this`shardToNodesMap
      ensures Valid()
    {
      shardToNodesMap := map[];
      var left := nodeShardMap.Keys;
      while left != {}
        invariant left <= nodeShardMap.Keys
        invariant Inverse(nodeShardMap - left, shardToNodesMap)
        decreases |left|
      {
        var nodeAddr :| nodeAddr in left;
        AddNode(nodeAddr, nodeShardMap - left);
        assert nodeShardMap - (left - {nodeAddr}) == (nodeShardMap - left)[nodeAddr := nodeShardMap[nodeAddr]];
        left := left - {nodeAddr};
      }
      assert nodeShardMap - {} == nodeShardMap;
    }

    method AddNode(nodeAddr: NodeId, ghost done: NodeShards)
      requires nodeAddr in nodeShardMap && nodeAddr !in done && Inverse(done, shardToNodesMap)
      modifies this`shardToNodesMap
      ensures Inverse(done[nodeAddr := nodeShardMap[nodeAddr]], shardToNodesMap)
    {
      hide Inverse;
      var todo := nodeShardMap[nodeAddr];
      ghost var added: set<nat> := {};
      NoShardYet(done, shardToNodesMap, nodeAddr);
      while todo != {}
        invariant added + todo == nodeShardMap[nodeAddr] && added !! todo
        invariant Inverse(done[nodeAddr := added], shardToNodesMap)
        decreases |todo|
      {
        var shard :| shard in todo;
        var nodes := if shard in shardToNodesMap then shardToNodesMap[shard] else {};
        label Before:
        shardToNodesMap := shardToNodesMap[shard := nodes + {nodeAddr}];
        OneMoreShard(done, old@Before(shardToNodesMap), nodeAddr, added, shard);
        todo, added := todo - {shard}, added + {shard};
      }
      assert added == nodeShardMap[nodeAddr];
    }

    /** The nodes that host the shard; a shard that nobody hosts has no entry, never an empty one. */
    method GetStorageNodesForShard(shard: nat) returns (r: Option<set<NodeId>>)
      requires Valid()
      ensures r == if shard in shardToNodesMap then Some(shardToNodesMap[shard]) else None
      ensures r != Some({})
      ensures forall n :: (r.Some? && n in r.value) <==> (n in nodeShardMap && shard in nodeShardMap[n])
    {
      return if shard in shardToNodesMap then Some(shardToNodesMap[shard]) else None;
    }
  }

  // ---------------------------------------------------------------- over any series of events

  function AfterEvents(events: seq<Event>): NodeShards {
    if events == [] then map[] else Reloaded(AfterEvents(events[..|events| - 1]), events[|events| - 1])
  }

  /** The last mask that any event reported for a node. */
  function LastMask(events: seq<Event>, n: NodeId): Option<int> {
    if events == [] then None
    else
      var last := LastMaskIn(events[|events| - 1], n);
      if last.Some? then last else LastMask(events[..|events| - 1], n)
  }

  function LastMaskIn(event: Event, n: NodeId): Option<int> {
    if event == [] then None
    else if event[|event| - 1].0 == n then Some(event[|event| - 1].1)
    else LastMaskIn(event[..|event| - 1], n)
  }

  /** Drives the state through any series of events. */
  method Drive(storage: StorageState, events: seq<Event>)
    requires storage.Valid() && storage.nodeShardMap == map[]
    modifies storage
    ensures storage.Valid() && storage.nodeShardMap == AfterEvents(events)
    ensures forall n, shard :: (shard in storage.shardToNodesMap && n in storage.shardToNodesMap[shard]) <==>
              LastMask(events, n).Some? && Bit(ToUint32(LastMask(events, n).value), shard)
  {
    for i := 0 to |events|
      invariant storage.Valid() && storage.nodeShardMap == AfterEvents(events[..i])
    {
      assert events[..i + 1][..i] == events[..i];
      storage.ReloadEveryAddress(events[i]);
    }
    assert events[..|events|] == events;
    forall n, shard
      ensures (shard in storage.shardToNodesMap && n in storage.shardToNodesMap[shard]) <==>
                LastMask(events, n).Some? && Bit(ToUint32(LastMask(events, n).value), shard)
    {
      IndexFollowsMasks(events, storage.shardToNodesMap, n, shard);
    }
  }

  lemma {:induction false} ReloadedMeans(nodeShards: NodeShards, event: Event, n: NodeId)
    ensures n in Reloaded(nodeShards, event) <==> n in nodeShards || LastMaskIn(event, n).Some?
    ensures LastMaskIn(event, n).Some? ==> Reloaded(nodeShards, event)[n] == Elems(Positions(LastMaskIn(event, n).value))
    ensures LastMaskIn(event, n).None? && n in nodeShards ==> Reloaded(nodeShards, event)[n] == nodeShards[n]
  {
    if event != [] {
      ReloadedMeans(nodeShards, event[..|event| - 1], n);
    }
  }

  /**
   After any series of events the index lists a node for a shard exactly when the last mask reported
   for that node has the bit of the shard, and no shard is listed without a node.
   */
  lemma {:induction false} IndexFollowsMasks(events: seq<Event>, shardNodes: ShardNodes, n: NodeId, shard: nat)
    requires Inverse(AfterEvents(events), shardNodes)
    ensures (shard in shardNodes && n in shardNodes[shard]) <==>
              LastMask(events, n).Some? && Bit(ToUint32(LastMask(events, n).value), shard)
    ensures shard in shardNodes ==> shardNodes[shard] != {}
  {
    AfterEventsMeans(events, n);
    if LastMask(events, n).Some? {
      PositionsFaithful(LastMask(events, n).value);
    }
  }

  lemma {:induction false} AfterEventsMeans(events: seq<Event>, n: NodeId)
    ensures n in AfterEvents(events) <==> LastMask(events, n).Some?
    ensures n in AfterEvents(events) ==> AfterEvents(events)[n] == Elems(Positions(LastMask(events, n).value))
  {
    if events != [] {
      AfterEventsMeans(events[..|events| - 1], n);
      ReloadedMeans(AfterEvents(events[..|events| - 1]), events[|events| - 1], n);
    }
  }
}
