/** Where a block is delivered and where a query reads: both follow from the shard of a wallet. */
module Sharding {
  import opened Prelude
  import opened BlockPb
  import opened ValidatorRandom
  import opened RandomUtil
  import opened StorageContractState
  import opened ReplyMerger
  import opened Quorum
  import opened ReplyCollection

  datatype Caip = Invalid | Address(addr: string)

  /** The two functions behind the shard of a wallet: the CAIP parser and the first byte of a SHA-256. */
  datatype ShardEnv = ShardEnv(parseCaip: string -> Caip, firstShaByte: string -> Byte)

  // ---------------------------------------------------------------- the shards of a block

  function CalculateAffectedShard(env: ShardEnv, wallet: string, shardCount: int): Result<Option<nat>> {
    if wallet == "" then Ok(None)
    else
      match env.parseCaip(wallet)
      case Invalid => Thrown("invalid caip address")
      case Address(addr) =>
        if |addr| <= 4 then Ok(None)
        else if shardCount < 1 then Thrown("Assertion failed")
        else Ok(Some(env.firstShaByte(if "0x" <= addr then addr[2..] else addr) % shardCount))
  }

  /**
   The shard of a wallet, written out: the first byte of the hash of its address without the prefix, modulo
   the number of shards. Empty wallets and short addresses have none, others cannot be parsed.
   */
  lemma ShardOfWallet(env: ShardEnv, wallet: string, shardCount: int, shard: nat, addr: string, bare: string)
    requires env.parseCaip(wallet) == Address(addr) && (addr == "0x" + bare || (addr == bare && !("0x" <= addr)))
    ensures CalculateAffectedShard(env, wallet, shardCount) == Ok(Some(shard)) <==>
              wallet != "" && |addr| >= 5 && shardCount >= 1 && shard == env.firstShaByte(bare) % shardCount
    ensures CalculateAffectedShard(env, wallet, shardCount) == Ok(None) <==> wallet == "" || |addr| < 5
  {}

  lemma WalletThrows(env: ShardEnv, wallet: string, shardCount: int)
    ensures CalculateAffectedShard(env, wallet, shardCount).Thrown? <==>
              wallet != "" && (env.parseCaip(wallet) == Invalid || (|env.parseCaip(wallet).addr| >= 5 && shardCount < 1))
  {}

  ghost predicate WalletsParse(env: ShardEnv, tx: Transaction, shardCount: int) {
    tx.category == "INIT_DID" ||
    (CalculateAffectedShard(env, tx.sender, shardCount).Ok? &&
     forall i :: 0 <= i < |tx.recipients| ==> CalculateAffectedShard(env, tx.recipients[i], shardCount).Ok?)
  }

  /** A shard that a transaction has to reach. */
  ghost predicate Affects(env: ShardEnv, tx: Transaction, shardCount: int, shard: nat) {
    if tx.category == "INIT_DID" then shard < shardCount
    else
      || CalculateAffectedShard(env, tx.sender, shardCount) == Ok(Some(shard))
      || exists i :: 0 <= i < |tx.recipients| && CalculateAffectedShard(env, tx.recipients[i], shardCount) == Ok(Some(shard))
  }

  method CalculateAffectedShardsTx(env: ShardEnv, tx: Transaction, shardCount: int, shards: set<nat>)
    returns (r: Result<set<nat>>)
    ensures r.Ok? <==> WalletsParse(env, tx, shardCount)
    ensures r.Ok? ==> forall s :: s in r.value <==> s in shards || Affects(env, tx, shardCount, s)
  {
    var result: set<nat> := shards;
    if tx.category == "INIT_DID" {
      var i: nat := 0;
      while i < shardCount
        invariant i == 0 || i <= shardCount
        invariant forall s: nat :: s in result <==> s in shards || s < i
      {
        result := result + {i};
        i := i + 1;
      }
      return Ok(result);
    }
    SenderAndRecipients(env, tx, shardCount);
    r := AddShards(env, [tx.sender] + tx.recipients, shardCount, shards);
  }

  method AddShards(env: ShardEnv, senderAndRecipients: seq<string>, shardCount: int, shards: set<nat>) returns (r: Result<set<nat>>)
    ensures r.Ok? <==> forall j :: 0 <= j < |senderAndRecipients| ==> CalculateAffectedShard(env, senderAndRecipients[j], shardCount).Ok?
    ensures r.Ok? ==> forall s :: s in r.value <==>
              s in shards || exists j :: 0 <= j < |senderAndRecipients| && CalculateAffectedShard(env, senderAndRecipients[j], shardCount) == Ok(Some(s))
  {
    hide CalculateAffectedShard;
    var result := shards;
    for k := 0 to |senderAndRecipients|
      invariant forall j :: 0 <= j < k ==> CalculateAffectedShard(env, senderAndRecipients[j], shardCount).Ok?
      invariant forall s :: s in result <==>
                  s in shards || exists j :: 0 <= j < k && CalculateAffectedShard(env, senderAndRecipients[j], shardCount) == Ok(Some(s))
    {
      var shardId := CalculateAffectedShard(env, senderAndRecipients[k], shardCount);
      if shardId.Thrown? {
        return Thrown(shardId.reason);
      }
      if shardId.value.Some? {
        result := result + {shardId.value.value};
      }
    }
    return Ok(result);
  }

  /** Going through the sender and then the recipients is going through all addresses of the transaction. */
  lemma SenderAndRecipients(env: ShardEnv, tx: Transaction, shardCount: int)
    requires tx.category != "INIT_DID"
    ensures var all := [tx.sender] + tx.recipients;
            && (WalletsParse(env, tx, shardCount) <==> forall j :: 0 <= j < |all| ==> CalculateAffectedShard(env, all[j], shardCount).Ok?)
            && forall s: nat :: Affects(env, tx, shardCount, s) <==>
                 exists j :: 0 <= j < |all| && CalculateAffectedShard(env, all[j], shardCount) == Ok(Some(s))
  {
    hide CalculateAffectedShard;
    var all := [tx.sender] + tx.recipients;
    assert all[0] == tx.sender;
    forall i | 0 <= i < |tx.recipients| ensures all[i + 1] == tx.recipients[i] {}
    forall j | 0 < j < |all| ensures all[j] == tx.recipients[j - 1] {}
    forall s: nat ensures Affects(env, tx, shardCount, s) <==>
                       exists j :: 0 <= j < |all| && CalculateAffectedShard(env, all[j], shardCount) == Ok(Some(s))
    {
      if i :| 0 <= i < |tx.recipients| && CalculateAffectedShard(env, tx.recipients[i], shardCount) == Ok(Some(s)) {
        assert CalculateAffectedShard(env, all[i + 1], shardCount) == Ok(Some(s));
      }
    }
    if forall j :: 0 <= j < |all| ==> CalculateAffectedShard(env, all[j], shardCount).Ok? {
      forall i | 0 <= i < |tx.recipients| ensures CalculateAffectedShard(env, tx.recipients[i], shardCount).Ok? {
        assert CalculateAffectedShard(env, all[i + 1], shardCount).Ok?;
      }
    }
  }

  method CalculateAffectedShards(env: ShardEnv, txs: seq<Transaction>, shardCount: int) returns (r: Result<set<nat>>)
    ensures r.Ok? <==> forall i :: 0 <= i < |txs| ==> WalletsParse(env, txs[i], shardCount)
    ensures r.Ok? ==> forall s :: s in r.value <==> exists i :: 0 <= i < |txs| && Affects(env, txs[i], shardCount, s)
  {
    var shards: set<nat> := {};
    for i := 0 to |txs|
      invariant forall k :: 0 <= k < i ==> WalletsParse(env, txs[k], shardCount)
      invariant forall s :: s in shards <==> exists k :: 0 <= k < i && Affects(env, txs[k], shardCount, s)
    {
      var more := CalculateAffectedShardsTx(env, txs[i], shardCount, shards);
      if more.Thrown? {
        return more;
      }
      shards := more.value;
    }
    return Ok(shards);
  }

  // ---------------------------------------------------------------- delivery

  /** Every shard that the block affects has nodes; otherwise delivery throws before anything is sent. */
  ghost predicate Deliverable(env: ShardEnv, txs: seq<Transaction>, shardCount: int, index: ShardNodes) {
    && (forall i :: 0 <= i < |txs| ==> WalletsParse(env, txs[i], shardCount))
    && (forall i, s: nat :: 0 <= i < |txs| && Affects(env, txs[i], shardCount, s) ==> s in index)
  }

  /** A storage node that the block has to reach. */
  ghost predicate DeliveredTo(env: ShardEnv, txs: seq<Transaction>, shardCount: int, index: ShardNodes, n: NodeId) {
    exists i, s: nat :: 0 <= i < |txs| && Affects(env, txs[i], shardCount, s) && s in index && n in index[s]
  }

  /** The storage nodes to which `publishFinalizedBlock` sends a block. */
  method AffectedStorageNodes(env: ShardEnv, txs: seq<Transaction>, shardCount: int, storage: StorageState)
    returns (r: Result<set<NodeId>>)
    requires storage.Valid()
    ensures r.Ok? <==> Deliverable(env, txs, shardCount, storage.shardToNodesMap)
    ensures r.Ok? ==> forall n :: n in r.value <==> DeliveredTo(env, txs, shardCount, storage.shardToNodesMap, n)
  {
    var affectedShards := CalculateAffectedShards(env, txs, shardCount);
    if affectedShards.Thrown? {
      return Thrown(affectedShards.reason);
    }
    var affectedSNodes: set<NodeId> := {};
    var left := affectedShards.value;
    while left != {}
      invariant left <= affectedShards.value
      invariant forall s :: s in affectedShards.value - left ==> s in storage.shardToNodesMap
      invariant forall n :: n in affectedSNodes <==>
                  exists s :: s in affectedShards.value - left && s in storage.shardToNodesMap && n in storage.shardToNodesMap[s]
      decreases |left|
    {
      var shardId :| shardId in left;
      var nodes := storage.GetStorageNodesForShard(shardId);
      if nodes.None? {
        return Thrown("undefined is not iterable");
      }
      ghost var before := left;
      left := left - {shardId};
      assert affectedShards.value - left == (affectedShards.value - before) + {shardId};
      affectedSNodes := affectedSNodes + nodes.value;
    }
    assert affectedShards.value - {} == affectedShards.value;
    return Ok(affectedSNodes);
  }

  // ---------------------------------------------------------------- queries

  datatype QueryPlan = QueryPlan(aNodes: seq<NodeId>, sNodes: seq<NodeId>, minQuorumThreshold: int)

  const READ_QUORUM_REDUNDANCY := 1

  /** How many nodes are to be polled: the read quorum plus one node, but not more than there are. */
  function NodesToPoll(fl: real -> real, total: nat): int {
    Min(ReadQuorum(fl, total) + READ_QUORUM_REDUNDANCY, total)
  }

  /** Leaves out the nodes that cannot be asked; a node that the contract does not know throws. */
  method OnlyReachable(nodes: seq<NodeId>, infos: map<NodeId, NodeInfo>) returns (r: Result<seq<NodeId>>)
    requires Distinct(nodes)
    ensures r.Ok? <==> forall n :: n in nodes ==> n in infos
    ensures r.Ok? ==> Distinct(r.value)
    ensures r.Ok? ==> forall n :: n in r.value <==> n in nodes && infos[n].url != "" && infos[n].enabled
  {
    var active: seq<NodeId> := [];
    for i := 0 to |nodes|
      invariant forall k :: 0 <= k < i ==> nodes[k] in infos
      invariant Distinct(active) && forall n :: n in active <==> n in nodes[..i] && infos[n].url != "" && infos[n].enabled
    {
      assert nodes[..i + 1] == nodes[..i] + [nodes[i]];
      assert nodes[i] !in nodes[..i];
      if nodes[i] !in infos {
        return Thrown("object is null");
      }
      if infos[nodes[i]].url == "" || !infos[nodes[i]].enabled {
        continue;
      }
      active := active + [nodes[i]];
    }
    assert nodes[..|nodes|] == nodes;
    return Ok(active);
  }

  /** The sizes of two lists without repetition that have the same elements. */
  lemma SameSize(s: seq<NodeId>, elems: set<NodeId>)
    requires Distinct(s) && forall n :: n in s <==> n in elems
    ensures |s| == |elems| && Elems(s) == elems
  {
    DistinctIffFull(s);
    assert Elems(s) == elems;
  }

  method SetToArray(s: set<NodeId>) returns (r: seq<NodeId>)
    ensures Distinct(r) && Elems(r) == s && |r| == |s|
  {
    r := [];
    var left := s;
    while left != {}
      invariant left <= s && Distinct(r) && Elems(r) == s - left && |r| + |left| == |s|
      decreases |left|
    {
      var x :| x in left;
      assert x !in Elems(r);
      assert Elems(r + [x]) == Elems(r) + {x};
      r, left := r + [x], left - {x};
    }
  }

  /** The nodes that can be asked: those that are enabled and have a url. */
  ghost function ReachableIn(nodes: set<NodeId>, infos: map<NodeId, NodeInfo>): set<NodeId> {
    set n | n in nodes && n in infos && infos[n].url != "" && infos[n].enabled
  }

  /**
   Which nodes `getTransactions` asks: all archival nodes that can be asked, and randomly picked nodes of
   the account's shard. As coded, the number of the latter takes all archival nodes to be asked.
   */
  method PlanQuery(env: ShardEnv, fl: real -> real, aNodeInfos: map<NodeId, NodeInfo>, sNodeInfos: map<NodeId, NodeInfo>,
                   accountInCaip: string, shardCount: int, storage: StorageState, draws: (nat, nat) -> seq<nat>)
    returns (r: Result<QueryPlan>)
    requires storage.Valid() && RoundsLikeDouble(fl)
    requires forall n: nat, len: nat :: n <= len ==> |draws(n, len)| == n && ValidDraws(draws(n, len), len)
    ensures var shard := CalculateAffectedShard(env, accountInCaip, shardCount);
            var index := storage.shardToNodesMap;
            if shard.Thrown? || shard.value.None? || shard.value.value !in index then r.Thrown?
            else
              var hosts := index[shard.value.value];
              var asked, active := ReachableIn(aNodeInfos.Keys, aNodeInfos), ReachableIn(hosts, sNodeInfos);
              var total := |asked| + |active|;
              && (r.Ok? <==> hosts <= sNodeInfos.Keys && |aNodeInfos| <= NodesToPoll(fl, total))
              && (r.Ok? ==>
                    && Distinct(r.value.aNodes) && Elems(r.value.aNodes) == asked
                    && Distinct(r.value.sNodes) && Elems(r.value.sNodes) <= active
                    && |r.value.sNodes| == NodesToPoll(fl, total) - |aNodeInfos|
                    && r.value.minQuorumThreshold == ReadQuorum(fl, total))
  {
    var aNodes := SetToArray(aNodeInfos.Keys);
    var aNodesToQuery := OnlyReachable(aNodes, aNodeInfos);
    var shardId := CalculateAffectedShard(env, accountInCaip, shardCount);
    if shardId.Thrown? {
      return Thrown(shardId.reason);
    }
    if shardId.value.None? {
      return Thrown("undefined is not iterable");
    }
    var nodes := storage.GetStorageNodesForShard(shardId.value.value);
    if nodes.None? {
      return Thrown("undefined is not iterable");
    }
    var sNodesPerShard := SetToArray(nodes.value);
    var sNodesActive := OnlyReachable(sNodesPerShard, sNodeInfos);
    if sNodesActive.Thrown? {
      return Thrown(sNodesActive.reason);
    }
    SameSize(aNodesToQuery.value, ReachableIn(aNodeInfos.Keys, aNodeInfos));
    SameSize(sNodesActive.value, ReachableIn(nodes.value, sNodeInfos));
    SubsetSize(ReachableIn(aNodeInfos.Keys, aNodeInfos), aNodeInfos.Keys);
    var picked := PickSNodes(fl, |aNodes|, |aNodesToQuery.value|, sNodesActive.value, draws);
    if picked.Thrown? {
      return Thrown(picked.reason);
    }
    var nodesRequiredToPoll := ReadQuorum(fl, |aNodesToQuery.value| + |sNodesActive.value|);
    return Ok(QueryPlan(aNodesToQuery.value, picked.value, nodesRequiredToPoll));
  }

  /** How many storage nodes are asked, and which. */
  method PickSNodes(fl: real -> real, aNodeCnt: nat, aNodesToQueryCnt: nat, sNodesActive: seq<NodeId>, draws: (nat, nat) -> seq<nat>)
    returns (r: Result<seq<NodeId>>)
    requires Distinct(sNodesActive) && aNodesToQueryCnt <= aNodeCnt
    requires forall n: nat, len: nat :: n <= len ==> |draws(n, len)| == n && ValidDraws(draws(n, len), len)
    ensures var toPoll := NodesToPoll(fl, aNodesToQueryCnt + |sNodesActive|);
            && (r.Ok? <==> aNodeCnt <= toPoll)
            && (r.Ok? ==> Distinct(r.value) && Elems(r.value) <= Elems(sNodesActive) && |r.value| == toPoll - aNodeCnt)
  {
    var totalNodeCnt := aNodesToQueryCnt + |sNodesActive|;
    var nodesRequiredToPoll := ReadQuorum(fl, totalNodeCnt);
    var nodesToPoll := Min(nodesRequiredToPoll + READ_QUORUM_REDUNDANCY, totalNodeCnt);
    var sNodesToQueryCnt := nodesToPoll - aNodeCnt;
    if sNodesToQueryCnt > |sNodesActive| {
      return Thrown("invalid sNodesToQueryCnt");
    }
    if sNodesToQueryCnt < 0 {
      r := GetRandomSubArray(sNodesActive, sNodesToQueryCnt, []);
      return;
    }
    r := GetRandomSubArray(sNodesActive, sNodesToQueryCnt, draws(sNodesToQueryCnt, |sNodesActive|));
    SubArrayDistinct(sNodesActive, sNodesToQueryCnt, draws(sNodesToQueryCnt, |sNodesActive|), r.value);
  }

  lemma SubArrayDistinct(source: seq<NodeId>, k: nat, draws: seq<nat>, result: seq<NodeId>)
    requires Distinct(source) && k == |draws| == |result| && ValidDraws(draws, |source|)
    requires forall j :: 0 <= j < k ==>
               Positions(|source|, draws)[j] < |source| && result[k - 1 - j] == source[Positions(|source|, draws)[j]]
    ensures Distinct(result) && Elems(result) <= Elems(source)
  {
    var p := Positions(|source|, draws);
    PositionsPartition(|source|, draws);
    forall a | 0 <= a < k ensures result[a] == source[p[k - 1 - a]] {
      assert result[k - 1 - (k - 1 - a)] == source[p[k - 1 - a]];
    }
    forall a, b | 0 <= a < b < k ensures result[a] != result[b] {
      assert p[k - 1 - b] != p[k - 1 - a];
    }
  }

  // ---------------------------------------------------------------- reading and writing agree

  /**
   Every storage node of the shard of an account, so every one that a query for the account may ask,
   is among those to which any block with a transaction from or to that account is delivered.
   */
  lemma QueriedNodesHaveTheBlock(env: ShardEnv, txs: seq<Transaction>, shardCount: int, index: ShardNodes,
                                 i: nat, account: string, n: NodeId)
    requires i < |txs| && (account == txs[i].sender || account in txs[i].recipients)
    requires var shard := CalculateAffectedShard(env, account, shardCount);
             shard.Ok? && shard.value.Some? && shard.value.value in index && n in index[shard.value.value]
    ensures DeliveredTo(env, txs, shardCount, index, n)
  {}

  /** An INIT_DID transaction reaches every node that hosts any shard, and needs every shard to be hosted. */
  lemma InitDidReachesEveryone(env: ShardEnv, txs: seq<Transaction>, shardCount: int, index: ShardNodes, i: nat)
    requires i < |txs| && txs[i].category == "INIT_DID"
    ensures forall s: nat, n :: s < shardCount && s in index && n in index[s] ==> DeliveredTo(env, txs, shardCount, index, n)
    ensures Deliverable(env, txs, shardCount, index) ==> forall s: nat :: s < shardCount ==> s in index
  {}

  /** A node whose shards do not include any affected one gets nothing: delivery goes nowhere else. */
  lemma OthersAreLeftAlone(env: ShardEnv, txs: seq<Transaction>, shardCount: int, nodeShards: NodeShards, index: ShardNodes, n: NodeId)
    requires Inverse(nodeShards, index)
    ensures DeliveredTo(env, txs, shardCount, index, n) <==>
              n in nodeShards && exists i, s: nat :: 0 <= i < |txs| && s in nodeShards[n] && Affects(env, txs[i], shardCount, s)
  {
    if DeliveredTo(env, txs, shardCount, index, n) {
      var i, s: nat :| 0 <= i < |txs| && Affects(env, txs[i], shardCount, s) && s in index && n in index[s];
      assert n in nodeShards && s in nodeShards[n];
    }
    if n in nodeShards && exists i, s: nat :: 0 <= i < |txs| && s in nodeShards[n] && Affects(env, txs[i], shardCount, s) {
      var i, s: nat :| 0 <= i < |txs| && s in nodeShards[n] && Affects(env, txs[i], shardCount, s);
      assert s in index && n in index[s];
    }
  }

  /** The number of nodes to poll reaches the threshold, with one to spare unless there are no more nodes. */
  lemma PollReachesQuorum(fl: real -> real, total: nat)
    requires RoundsLikeDouble(fl) && 1 <= total <= MAX_ARRAY_LENGTH
    ensures 1 <= ReadQuorum(fl, total) <= NodesToPoll(fl, total) <= total
    ensures NodesToPoll(fl, total) == total || NodesToPoll(fl, total) == ReadQuorum(fl, total) + 1
  {
    ReadQuorumIsMajority(fl, total);
  }

  /**
   As many nodes are really polled as that number says, less the archival nodes that cannot be asked. So the
   threshold is within reach exactly when there is no such node, or one and there was one to spare.
   */
  lemma ThresholdWithinReachIff(fl: real -> real, total: nat, unreachable: nat)
    requires RoundsLikeDouble(fl) && 1 <= total <= MAX_ARRAY_LENGTH
    ensures NodesToPoll(fl, total) - unreachable >= ReadQuorum(fl, total) <==>
              unreachable == 0 || (unreachable == 1 && ReadQuorum(fl, total) < total)
  {
    ReadQuorumIsMajority(fl, total);
  }

  /** Two archival nodes that cannot be asked make every query fail, whatever the polled nodes reply. */
  lemma UnreachableArchivalNodesFail(fl: real -> real, total: nat, unreachable: nat, replies: seq<NodeReply>)
    requires RoundsLikeDouble(fl) && 1 <= total <= MAX_ARRAY_LENGTH
    requires |replies| == NodesToPoll(fl, total) - unreachable
    requires unreachable >= 2 || (unreachable == 1 && ReadQuorum(fl, total) == total)
    ensures Grouped(StatusAfter(replies), KeysAfter(replies), ReadQuorum(fl, total)).quorumResult == QuorumFailedNodeReplies
    ensures Grouped(StatusAfter(replies), KeysAfter(replies), ReadQuorum(fl, total)).items == []
  {
    ThresholdWithinReachIff(fl, total, unreachable);
    TooFewPolledFails(replies, ReadQuorum(fl, total));
  }
}
