/**
 Committee selection: every node derives the same vector of node ids from the same set of node
 randoms, by hashing the sorted randoms and drawing without replacement.
 SHA-512 is a parameter, so everything proved here holds for every hash function.
 */
module ValidatorRandom {
  import opened Prelude
  import opened NodeOrder

  type Byte = x: int | 0 <= x < 256
  type Digest = s: seq<Byte> | |s| == 64 witness seq(64, _ => 0)

  /** The hash sees the seed and then the bytes of every node random. */
  type Sha512 = (string, seq<Byte>) -> Digest

  /** A signed random of one node; the two flags are the outcomes of `StrUtil.isHex` and `EthUtil.check`. */
  datatype NodeRandom = NodeRandom(
    nodeId: NodeId, tsMillis: int, random: seq<Byte>, validHex: bool, validSignature: bool)

  /** A token carries the node randoms it was made from; any other text is kept as it is. */
  datatype Token =
    | ValidatorToken(nodes: seq<NodeRandom>)
    | AttestToken(nodes: seq<NodeRandom>)
    | Text(text: string)

  const VAL_TOKEN_PREFIX := "VT1"
  const ATT_TOKEN_PREFIX := "AT1"
  const HOUR_MILLIS := 60 * 60 * 1000

  datatype NodeInfo = NodeInfo(url: string, isVNode: bool, enabled: bool)
  datatype ContractState = ContractState(
    vnodes: map<NodeId, NodeInfo>, valPerBlock: int, nodeRandomMinCount: int)

  /** What a node consults besides its arguments: the contract, the clock, one flag and the hash. */
  datatype RandomEnv = RandomEnv(contract: ContractState, now: int, timeoutDisabled: bool, sha512: Sha512)

  // ---------------------------------------------------------------- the draw

  /** The specification of the drawing loop: what it returns from the remaining pool and hash bytes. */
  function Draw(pool: seq<NodeId>, bytes: seq<Byte>, ban: set<NodeId>, required: nat, picked: seq<NodeId>)
    : Result<seq<NodeId>>
    decreases |bytes|
  {
    if bytes == [] || |picked| >= required then
      if |picked| == required then Ok(picked) else Thrown("failed to collect enough random nodes from networkRandom")
    else if pool == [] then
      Thrown("invalid random node at 0")
    else
      var x := bytes[0] % |pool|;
      Draw(RemoveAt(pool, x), bytes[1..], ban, required,
           if pool[x] in ban then picked else AddNew(picked, pool[x]))
  }

  function HashInput(nodes: seq<NodeId>, randoms: map<NodeId, seq<Byte>>): Result<seq<Byte>> {
    if nodes == [] then Ok([])
    else
      var front := HashInput(nodes[..|nodes| - 1], randoms);
      var last := nodes[|nodes| - 1];
      if front.Thrown? then front
      else if last !in randoms then Thrown("no random for a node")
      else Ok(front.value + randoms[last])
  }

  function SelectCommittee(nodes: seq<NodeId>, randoms: map<NodeId, seq<Byte>>, required: int,
                           seed: string, ban: set<NodeId>, sha512: Sha512): Result<seq<NodeId>>
  {
    if required < 1 || required > 50 then Thrown("current function works only for 50 nodes")
    else if required > |nodes| then Thrown("generating possible duplicates")
    else if |nodes| > |randoms| then Thrown("mapIdToRandom is too small")
    else if |nodes| == 1 then Ok([nodes[0]])
    else
      var sorted := SortAsc(nodes);
      var input := HashInput(sorted, randoms);
      if input.Thrown? then Thrown(input.reason)
      else Draw(sorted, sha512(seed, input.value), ban, required, [])
  }

  method CalculateValidationVector(nodes: seq<NodeId>, mapIdToRandom: map<NodeId, seq<Byte>>,
                                   randomNodesRequired: int, seed: string, nodesToSkip: seq<NodeId>,
                                   sha512: Sha512)
    returns (r: Result<seq<NodeId>>)
    ensures r == SelectCommittee(nodes, mapIdToRandom, randomNodesRequired, seed, Elems(nodesToSkip), sha512)
    ensures r.Ok? && |nodes| >= 2 ==>
              exists sorted: seq<NodeId> ::
                && Sorted(sorted) && Permutation(nodes, sorted)
                && DrawnBy(sorted, sha512(seed, Joined(sorted, mapIdToRandom)), Elems(nodesToSkip), randomNodesRequired, r.value)
  {
    if randomNodesRequired < 1 || randomNodesRequired > 50 {
      return Thrown("current function works only for 50 nodes");
    }
    if randomNodesRequired > |nodes| {
      return Thrown("generating possible duplicates");
    }
    if |nodes| > |mapIdToRandom| {
      return Thrown("mapIdToRandom is too small");
    }
    if |nodes| == 0 {
      return Thrown("not enough nodeIds");
    }
    if |nodes| == 1 {
      return Ok([nodes[0]]);
    }
    hide HashInput, SortAsc, Draw, DrawnBy, Joined;
    var nodeArr := SortAsc(nodes);
    ghost var sorted := nodeArr;
    var hashed := ConcatenateRandoms(nodeArr, mapIdToRandom);
    if hashed.Thrown? {
      return Thrown(hashed.reason);
    }
    var hash := sha512(seed, hashed.value);
    r := DrawNodes(nodeArr, hash, Elems(nodesToSkip), randomNodesRequired);
    if r.Ok? {
      SortAscSorted(nodes);
      SelectionExact(nodes, mapIdToRandom, randomNodesRequired, seed, Elems(nodesToSkip), sha512, sorted, r.value);
    }
  }

  method DrawNodes(nodes: seq<NodeId>, hash: Digest, banSet: set<NodeId>, randomNodesRequired: nat) returns (r: Result<seq<NodeId>>)
    ensures r == Draw(nodes, hash, banSet, randomNodesRequired, [])
  {
    var nodeArr := nodes;
    var resultSet: seq<NodeId> := [];
    ghost var whole := Draw(nodes, hash, banSet, randomNodesRequired, []);
    var i := 0;
    while i < 64 && |resultSet| < randomNodesRequired
      invariant 0 <= i <= 64
      invariant |resultSet| <= randomNodesRequired
      invariant Draw(nodeArr, hash[i..], banSet, randomNodesRequired, resultSet) == whole
    {
      if nodeArr == [] {
        return Thrown("invalid random node at 0");
      }
      var x := hash[i] % |nodeArr|;
      var id := nodeArr[x];
      assert hash[i..][1..] == hash[i + 1..];
      nodeArr := RemoveAt(nodeArr, x);
      if id !in banSet {
        resultSet := AddNew(resultSet, id);
      }
      i := i + 1;
    }
    if |resultSet| != randomNodesRequired {
      return Thrown("failed to collect enough random nodes from networkRandom");
    }
    return Ok(resultSet);
  }

  method ConcatenateRandoms(nodeArr: seq<NodeId>, mapIdToRandom: map<NodeId, seq<Byte>>) returns (r: Result<seq<Byte>>)
    ensures r == HashInput(nodeArr, mapIdToRandom)
  {
    var hashed: seq<Byte> := [];
    for j := 0 to |nodeArr|
      invariant HashInput(nodeArr[..j], mapIdToRandom) == Ok(hashed)
    {
      assert nodeArr[..j + 1][..j] == nodeArr[..j];
      if nodeArr[j] !in mapIdToRandom {
        HashInputThrows(nodeArr, j + 1, mapIdToRandom);
        return Thrown("no random for a node");
      }
      hashed := hashed + mapIdToRandom[nodeArr[j]];
    }
    assert nodeArr[..|nodeArr|] == nodeArr;
    return Ok(hashed);
  }

  lemma {:induction false} HashInputThrows(nodes: seq<NodeId>, j: nat, randoms: map<NodeId, seq<Byte>>)
    requires j <= |nodes|
    requires HashInput(nodes[..j], randoms).Thrown?
    ensures HashInput(nodes, randoms) == HashInput(nodes[..j], randoms)
    decreases |nodes| - j
  {
    if j == |nodes| {
      assert nodes[..j] == nodes;
    } else {
      assert nodes[..j + 1][..j] == nodes[..j];
      HashInputThrows(nodes, j + 1, randoms);
    }
  }

  // ---------------------------------------------------------------- the draw, byte by byte

  /** The randoms of the nodes one after the other. */
  function Joined(nodes: seq<NodeId>, randoms: map<NodeId, seq<Byte>>): seq<Byte> {
    if nodes == [] then [] else (if nodes[0] in randoms then randoms[nodes[0]] else []) + Joined(nodes[1..], randoms)
  }

  lemma {:induction false} JoinedSnoc(nodes: seq<NodeId>, last: NodeId, randoms: map<NodeId, seq<Byte>>)
    ensures Joined(nodes + [last], randoms) == Joined(nodes, randoms) + Joined([last], randoms)
  {
    var all, end := nodes + [last], Joined([last], randoms);
    if nodes == [] {
      assert all == [last];
      assert [] + end == end;
    } else {
      JoinedSnoc(nodes[1..], last, randoms);
      assert all[1..] == nodes[1..] + [last] && all[0] == nodes[0];
      var first := if nodes[0] in randoms then randoms[nodes[0]] else [];
      assert Joined(all, randoms) == first + (Joined(nodes[1..], randoms) + end);
      assert first + (Joined(nodes[1..], randoms) + end) == (first + Joined(nodes[1..], randoms)) + end;
    }
  }

  lemma {:induction false} HashInputJoins(nodes: seq<NodeId>, randoms: map<NodeId, seq<Byte>>)
    ensures HashInput(nodes, randoms).Ok? <==> forall id :: id in nodes ==> id in randoms
    ensures HashInput(nodes, randoms).Ok? ==> HashInput(nodes, randoms).value == Joined(nodes, randoms)
  {
    if nodes != [] {
      var front, last := nodes[..|nodes| - 1], nodes[|nodes| - 1];
      HashInputJoins(front, randoms);
      JoinedSnoc(front, last, randoms);
      assert nodes == front + [last];
      assert [last][1..] == [];
    }
  }

  /**
   A drawing, one step per hash byte: byte `i` selects the position `bytes[i] % |pools[i]|`, the id there
   leaves the pool and is kept unless it is banned or already there. Drawing goes on while ids are missing.
   */
  ghost predicate Drawing(pools: seq<seq<NodeId>>, kept: seq<seq<NodeId>>, bytes: seq<Byte>, ban: set<NodeId>, required: int) {
    && 1 <= |pools| == |kept| <= |bytes| + 1
    && forall i :: 0 <= i < |pools| - 1 ==> DrawingStep(pools[i], kept[i], bytes[i], ban, required, pools[i + 1], kept[i + 1])
  }

  ghost predicate DrawingStep(pool: seq<NodeId>, kept: seq<NodeId>, byte: Byte, ban: set<NodeId>, required: int,
                              pool': seq<NodeId>, kept': seq<NodeId>)
  {
    && pool != [] && |kept| < required
    && var x := byte % |pool|;
       && pool' == pool[..x] + pool[x + 1..]
       && kept' == if pool[x] in ban || pool[x] in kept then kept else kept + [pool[x]]
  }

  lemma {:induction false} DrawHasDrawing(pool: seq<NodeId>, bytes: seq<Byte>, ban: set<NodeId>, required: nat, picked: seq<NodeId>)
    returns (pools: seq<seq<NodeId>>, kept: seq<seq<NodeId>>)
    requires Draw(pool, bytes, ban, required, picked).Ok?
    ensures Drawing(pools, kept, bytes, ban, required)
    ensures pools[0] == pool && kept[0] == picked
    ensures kept[|kept| - 1] == Draw(pool, bytes, ban, required, picked).value && |kept[|kept| - 1]| == required
    decreases |bytes|
  {
    if bytes == [] || |picked| >= required {
      pools, kept := [pool], [picked];
    } else {
      var x := bytes[0] % |pool|;
      var pool', picked' := RemoveAt(pool, x), if pool[x] in ban then picked else AddNew(picked, pool[x]);
      var ps, ks := DrawHasDrawing(pool', bytes[1..], ban, required, picked');
      DrawingCons(pool, picked, ps, ks, bytes, ban, required);
      pools, kept := [pool] + ps, [picked] + ks;
    }
  }

  lemma DrawingCons(pool: seq<NodeId>, picked: seq<NodeId>, pools: seq<seq<NodeId>>, kept: seq<seq<NodeId>>, bytes: seq<Byte>,
                    ban: set<NodeId>, required: int)
    requires bytes != [] && Drawing(pools, kept, bytes[1..], ban, required)
    requires DrawingStep(pool, picked, bytes[0], ban, required, pools[0], kept[0])
    ensures Drawing([pool] + pools, [picked] + kept, bytes, ban, required)
  {
    hide DrawingStep;
    var ps, ks := [pool] + pools, [picked] + kept;
    forall i | 0 <= i < |ps| - 1 ensures DrawingStep(ps[i], ks[i], bytes[i], ban, required, ps[i + 1], ks[i + 1]) {
      if i > 0 {
        assert DrawingStep(pools[i - 1], kept[i - 1], bytes[1..][i - 1], ban, required, pools[i], kept[i]);
      }
    }
  }

  lemma {:induction false} DrawingIsDraw(pools: seq<seq<NodeId>>, kept: seq<seq<NodeId>>, bytes: seq<Byte>, ban: set<NodeId>, required: nat)
    requires Drawing(pools, kept, bytes, ban, required) && |kept[|kept| - 1]| == required
    ensures Draw(pools[0], bytes, ban, required, kept[0]) == Ok(kept[|kept| - 1])
    decreases |pools|
  {
    if |pools| > 1 {
      assert DrawingStep(pools[0], kept[0], bytes[0], ban, required, pools[1], kept[1]);
      forall i | 0 <= i < |pools[1..]| - 1
        ensures DrawingStep(pools[1..][i], kept[1..][i], bytes[1..][i], ban, required, pools[1..][i + 1], kept[1..][i + 1])
      {
        assert DrawingStep(pools[i + 1], kept[i + 1], bytes[i + 1], ban, required, pools[i + 2], kept[i + 2]);
      }
      DrawingIsDraw(pools[1..], kept[1..], bytes[1..], ban, required);
    }
  }

  /** What a selection from at least two ids is, from the sorted ids, the hash and the skipped ids alone. */
  ghost predicate DrawnBy(sorted: seq<NodeId>, hash: seq<Byte>, ban: set<NodeId>, required: int, committee: seq<NodeId>) {
    exists pools: seq<seq<NodeId>>, kept: seq<seq<NodeId>> :: Drawing(pools, kept, hash, ban, required) &&
      pools[0] == sorted && kept[0] == [] && kept[|kept| - 1] == committee && |committee| == required
  }

  /**
   Selection, exactly: which ids it gives and when it gives any. The sorted ids are the only ordered list of
   the given ids, and their randoms in this order, behind the seed, are what is hashed.
   */
  lemma SelectionExact(nodes: seq<NodeId>, randoms: map<NodeId, seq<Byte>>, required: int, seed: string,
                       ban: set<NodeId>, sha512: Sha512, sorted: seq<NodeId>, committee: seq<NodeId>)
    requires Sorted(sorted) && multiset(sorted) == multiset(nodes)
    ensures SelectCommittee(nodes, randoms, required, seed, ban, sha512) == Ok(committee) <==>
              && 1 <= required <= 50 && required <= |nodes| <= |randoms|
              && if |nodes| == 1 then committee == nodes
                 else (forall id :: id in nodes ==> id in randoms) &&
                      DrawnBy(sorted, sha512(seed, Joined(sorted, randoms)), ban, required, committee)
  {
    hide Draw, Drawing, HashInput, Joined;
    SortAscSorted(nodes);
    SortedUnique(SortAsc(nodes), sorted);
    PermutationBasics(sorted, nodes);
    HashInputJoins(sorted, randoms);
    var hash := sha512(seed, Joined(sorted, randoms));
    assert |nodes| == 1 ==> nodes == [nodes[0]];
    if 1 <= required {
      DrawExactlyDrawn(sorted, hash, ban, required, committee);
    }
  }

  lemma DrawExactlyDrawn(sorted: seq<NodeId>, hash: seq<Byte>, ban: set<NodeId>, required: nat, committee: seq<NodeId>)
    ensures Draw(sorted, hash, ban, required, []) == Ok(committee) <==> DrawnBy(sorted, hash, ban, required, committee)
  {
    if Draw(sorted, hash, ban, required, []) == Ok(committee) {
      var pools, kept := DrawHasDrawing(sorted, hash, ban, required, []);
    }
    if DrawnBy(sorted, hash, ban, required, committee) {
      var pools: seq<seq<NodeId>>, kept: seq<seq<NodeId>> :| Drawing(pools, kept, hash, ban, required) &&
        pools[0] == sorted && kept[0] == [] && kept[|kept| - 1] == committee && |committee| == required;
      DrawingIsDraw(pools, kept, hash, ban, required);
    }
  }

  // ---------------------------------------------------------------- exactness of the draw

  /** The number of ids of the pool that are not banned. */
  function Free(pool: seq<NodeId>, ban: set<NodeId>): nat {
    |Elems(pool) - ban|
  }

  function Banned(pool: seq<NodeId>, ban: set<NodeId>): nat {
    |Elems(pool) * ban|
  }

  lemma DrawRemoves(pool: seq<NodeId>, x: nat)
    requires Distinct(pool) && x < |pool|
    ensures Distinct(RemoveAt(pool, x))
    ensures Elems(RemoveAt(pool, x)) == Elems(pool) - {pool[x]}
  {}

  lemma PoolAfterDraw(pool: seq<NodeId>, x: nat, ban: set<NodeId>)
    requires Distinct(pool) && x < |pool|
    ensures Distinct(RemoveAt(pool, x))
    ensures Elems(RemoveAt(pool, x)) == Elems(pool) - {pool[x]}
    ensures Free(RemoveAt(pool, x), ban) == Free(pool, ban) - (if pool[x] in ban then 0 else 1)
    ensures Banned(RemoveAt(pool, x), ban) == Banned(pool, ban) - (if pool[x] in ban then 1 else 0)
  {
    DrawRemoves(pool, x);
    var before, after, id := Elems(pool), Elems(RemoveAt(pool, x)), pool[x];
    assert id in before;
    if id in ban {
      assert after - ban == before - ban;
      assert after * ban == (before * ban) - {id};
    } else {
      assert after - ban == (before - ban) - {id};
      assert after * ban == before * ban;
    }
  }

  /** What a committee must look like: the right size, no repetition, nobody banned, only pool members. */
  ghost predicate CommitteeFrom(committee: seq<NodeId>, required: int, pool: set<NodeId>, ban: set<NodeId>) {
    && |committee| == required
    && Distinct(committee)
    && forall id :: id in committee ==> id in pool && id !in ban
  }

  /**
   The drawing loop succeeds exactly when enough free ids remain, as long as there is a byte for
   every id it may have to consume.
   */
  lemma {:induction false} DrawExact(pool: seq<NodeId>, bytes: seq<Byte>, ban: set<NodeId>, required: nat,
                                     picked: seq<NodeId>, all: set<NodeId>)
    requires Distinct(pool) && Elems(pool) <= all
    requires CommitteeFrom(picked, |picked|, all, ban) && |picked| <= required
    requires Elems(picked) !! Elems(pool)
    requires required - |picked| + Banned(pool, ban) <= |bytes| || |pool| <= |bytes|
    ensures Draw(pool, bytes, ban, required, picked).Ok? <==> required - |picked| <= Free(pool, ban)
    ensures Draw(pool, bytes, ban, required, picked).Ok? ==>
              CommitteeFrom(Draw(pool, bytes, ban, required, picked).value, required, all, ban)
    decreases |bytes|
  {
    DistinctIffFull(pool);
    assert Elems(pool) == (Elems(pool) - ban) + (Elems(pool) * ban);
    if bytes != [] && |picked| < required && pool != [] {
      var x := bytes[0] % |pool|;
      PoolAfterDraw(pool, x, ban);
      var next := if pool[x] in ban then picked else AddNew(picked, pool[x]);
      assert pool[x] !in picked;
      DrawExact(RemoveAt(pool, x), bytes[1..], ban, required, next, all);
    }
  }

  lemma {:induction false} HashInputDefined(nodes: seq<NodeId>, randoms: map<NodeId, seq<Byte>>)
    requires Elems(nodes) <= randoms.Keys
    ensures HashInput(nodes, randoms).Ok?
  {
    if nodes != [] {
      assert nodes[|nodes| - 1] in Elems(nodes);
      HashInputDefined(nodes[..|nodes| - 1], randoms);
    }
  }

  /**
   Committee exactness, for every hash function: with at least two different ids and a hash byte for
   everything that may be drawn, selection succeeds exactly when enough ids are not skipped, and then
   gives that many different ids of the input, none of them skipped.
   */
  lemma CommitteeExact(nodes: seq<NodeId>, randoms: map<NodeId, seq<Byte>>, required: int,
                       seed: string, ban: set<NodeId>, sha512: Sha512)
    requires Distinct(nodes) && |nodes| >= 2 && Elems(nodes) <= randoms.Keys
    requires 1 <= required <= 50
    requires |nodes| <= 64 || required + Banned(nodes, ban) <= 64
    ensures SelectCommittee(nodes, randoms, required, seed, ban, sha512).Ok? <==> required <= Free(nodes, ban)
    ensures SelectCommittee(nodes, randoms, required, seed, ban, sha512).Ok? ==>
              CommitteeFrom(SelectCommittee(nodes, randoms, required, seed, ban, sha512).value,
                            required, Elems(nodes), ban)
  {
    hide Draw, HashInput;
    DistinctIffFull(nodes);
    SubsetSize(Elems(nodes), randoms.Keys);
    SubsetSize(Elems(nodes) - ban, Elems(nodes));
    if required <= |nodes| {
      var sorted := SortAsc(nodes);
      PermutationBasics(nodes, sorted);
      PermutationDistinct(nodes, sorted);
      HashInputDefined(sorted, randoms);
      DrawExact(sorted, sha512(seed, HashInput(sorted, randoms).value), ban, required, [], Elems(nodes));
    }
  }

  lemma DrawByte(pool: seq<NodeId>, x: nat, rest: seq<Byte>, ban: set<NodeId>, required: nat, picked: seq<NodeId>)
    requires x < |pool| <= 256 && |picked| < required
    ensures Draw(pool, [x] + rest, ban, required, picked)
         == Draw(RemoveAt(pool, x), rest, ban, required, if pool[x] in ban then picked else AddNew(picked, pool[x]))
  {
    hide RemoveAt, AddNew;
    var bytes: seq<Byte> := [x] + rest;
    assert bytes[0] % |pool| == x && bytes[1..] == rest && bytes != [];
    assert Draw(pool, bytes, ban, required, picked)
        == Draw(RemoveAt(pool, x), bytes[1..], ban, required, if pool[x] in ban then picked else AddNew(picked, pool[x]));
  }

  /** A banned id if there is one, any id otherwise. */
  lemma UnluckyIndex(pool: seq<NodeId>, ban: set<NodeId>) returns (x: nat)
    requires pool != []
    ensures x < |pool| && (pool[x] in ban || Banned(pool, ban) == 0)
  {
    x := 0;
    if Elems(pool) * ban != {} {
      var id :| id in Elems(pool) * ban;
      x :| x < |pool| && pool[x] == id;
    }
  }

  lemma AddsAtMostOne(picked: seq<NodeId>, id: NodeId)
    ensures |AddNew(picked, id)| <= |picked| + 1
  {}

  lemma NothingToDraw(pool: seq<NodeId>, bytes: seq<Byte>, ban: set<NodeId>, required: nat, picked: seq<NodeId>)
    requires pool == [] || bytes == []
    requires |picked| < required
    ensures Draw(pool, bytes, ban, required, picked).Thrown?
  {}

  /** Too few hash bytes: they can be such that all banned ids are drawn first. */
  lemma {:induction false} UnluckyBytes(pool: seq<NodeId>, ban: set<NodeId>, required: nat, picked: seq<NodeId>, n: nat)
    returns (bytes: seq<Byte>)
    requires Distinct(pool) && |pool| <= 256 && |picked| < required
    requires n < required - |picked| + Banned(pool, ban)
    ensures |bytes| == n && Draw(pool, bytes, ban, required, picked).Thrown?
    decreases n
  {
    hide Draw, Distinct, RemoveAt, Banned, Free, Elems, AddNew;
    if n == 0 || pool == [] {
      bytes := seq(n, _ => 0);
      NothingToDraw(pool, bytes, ban, required, picked);
    } else {
      var x := UnluckyIndex(pool, ban);
      PoolAfterDraw(pool, x, ban);
      var picked' := if pool[x] in ban then picked else AddNew(picked, pool[x]);
      AddsAtMostOne(picked, pool[x]);
      var rest := UnluckyBytes(RemoveAt(pool, x), ban, required, picked', n - 1);
      DrawByte(pool, x, rest, ban, required, picked);
      bytes := [x] + rest;
    }
  }

  /**
   How many nodes a committee can be drawn from: when enough ids are free, selection succeeds for every
   hash exactly when the committee and the skipped ids together are no more than the 64 hash bytes.
   */
  lemma CommitteeFromEveryHash(nodes: seq<NodeId>, randoms: map<NodeId, seq<Byte>>, required: int, seed: string, ban: set<NodeId>)
    requires Distinct(nodes) && 2 <= |nodes| <= 256 && Elems(nodes) <= randoms.Keys
    requires 1 <= required <= 50 && required <= Free(nodes, ban)
    ensures (forall sha512: Sha512 :: SelectCommittee(nodes, randoms, required, seed, ban, sha512).Ok?)
       <==> required + Banned(nodes, ban) <= 64
  {
    if required + Banned(nodes, ban) <= 64 {
      forall sha512: Sha512 ensures SelectCommittee(nodes, randoms, required, seed, ban, sha512).Ok? {
        CommitteeExact(nodes, randoms, required, seed, ban, sha512);
      }
    } else {
      var sorted := SortAsc(nodes);
      PermutationBasics(nodes, sorted);
      PermutationDistinct(nodes, sorted);
      var bytes := UnluckyBytes(sorted, ban, required, [], 64);
      var sha512: Sha512 := (s, input) => bytes;
      assert SelectCommittee(nodes, randoms, required, seed, ban, sha512).Thrown?;
    }
  }

  /** The length check against the map rejects every list with a repeated id (pigeonhole). */
  lemma RepeatedIdRejected(nodes: seq<NodeId>, randoms: map<NodeId, seq<Byte>>, required: int,
                           seed: string, ban: set<NodeId>, sha512: Sha512)
    requires randoms.Keys == Elems(nodes) && !Distinct(nodes)
    ensures SelectCommittee(nodes, randoms, required, seed, ban, sha512).Thrown?
  {
    DistinctIffFull(nodes);
    assert |randoms| == |randoms.Keys|;
  }

  // ---------------------------------------------------------------- from node randoms to a vector

  predicate GoodNode(env: RandomEnv, nr: NodeRandom) {
    && (env.timeoutDisabled || nr.tsMillis > env.now - HOUR_MILLIS)
    && nr.nodeId in env.contract.vnodes
    && nr.validSignature
    && nr.validHex
  }

  function Good(env: RandomEnv, nodes: seq<NodeRandom>): seq<NodeRandom> {
    if nodes == [] then []
    else
      var front, last := Good(env, nodes[..|nodes| - 1]), nodes[|nodes| - 1];
      if GoodNode(env, last) then front + [last] else front
  }

  function Ids(nodes: seq<NodeRandom>): (r: seq<NodeId>)
    ensures |r| == |nodes|
  {
    seq(|nodes|, i requires 0 <= i < |nodes| => nodes[i].nodeId)
  }

  /** A map filled in list order: the last entry of an id stays. */
  function RandomsById(nodes: seq<NodeRandom>): map<NodeId, seq<Byte>> {
    if nodes == [] then map[]
    else
      var last := nodes[|nodes| - 1];
      RandomsById(nodes[..|nodes| - 1])[last.nodeId := last.random]
  }

  function ValidationVector(env: RandomEnv, required: int, nodes: seq<NodeRandom>, seed: string, ban: set<NodeId>)
    : Result<seq<NodeId>>
  {
    if "" in Ids(nodes) then Thrown("Str empty check failed")
    else
      var good := Good(env, nodes);
      if env.contract.nodeRandomMinCount != 0 && |good| < env.contract.nodeRandomMinCount then
        Thrown("not enough Node Random replies to build a random vector")
      else
        SelectCommittee(Ids(good), RandomsById(good), required, seed, ban, env.sha512)
  }

  /** The usable randoms: not older than an hour, of a registered node, properly signed and hexadecimal. */
  lemma {:induction false} GoodMeans(env: RandomEnv, nodes: seq<NodeRandom>)
    ensures forall nr :: nr in Good(env, nodes) <==>
              && nr in nodes && (env.timeoutDisabled || env.now - nr.tsMillis < 3600000)
              && nr.nodeId in env.contract.vnodes && nr.validSignature && nr.validHex
    ensures forall nr :: nr in Good(env, nodes) ==> multiset(Good(env, nodes))[nr] == multiset(nodes)[nr]
  {
    GoodFacts(env, nodes);
    forall nr | nr in Good(env, nodes) ensures multiset(Good(env, nodes))[nr] == multiset(nodes)[nr] {
      GoodCount(env, nodes, nr);
    }
  }

  /**
   When there is a vector and what it is: no random without a node id, enough usable randoms, all of
   different nodes, and then the selection from these nodes by their randoms.
   */
  lemma VectorExact(env: RandomEnv, required: int, nodes: seq<NodeRandom>, seed: string, ban: set<NodeId>, sorted: seq<NodeId>,
                    vector: seq<NodeId>)
    requires Sorted(sorted) && multiset(sorted) == multiset(Ids(Good(env, nodes)))
    ensures ValidationVector(env, required, nodes, seed, ban) == Ok(vector) <==>
              var good := Good(env, nodes);
              && (forall nr :: nr in nodes ==> nr.nodeId != "")
              && (env.contract.nodeRandomMinCount == 0 || |good| >= env.contract.nodeRandomMinCount)
              && Distinct(Ids(good)) && 1 <= required <= 50 && required <= |good|
              && if |good| == 1 then vector == [good[0].nodeId]
                 else DrawnBy(sorted, env.sha512(seed, Joined(sorted, RandomsById(good))), ban, required, vector)
  {
    hide SelectCommittee, DrawnBy, Good, Joined;
    var good := Good(env, nodes);
    assert "" in Ids(nodes) <==> exists nr :: nr in nodes && nr.nodeId == "" by {
      NoEmptyId(nodes);
    }
    RandomsByIdKeys(good);
    DistinctIffFull(Ids(good));
    assert |RandomsById(good)| == |RandomsById(good).Keys|;
    assert forall id :: id in Ids(good) ==> id in Elems(Ids(good));
    assert |good| == 1 ==> Ids(good) == [good[0].nodeId];
    SelectionExact(Ids(good), RandomsById(good), required, seed, ban, env.sha512, sorted, vector);
  }

  lemma NoEmptyId(nodes: seq<NodeRandom>)
    ensures "" in Ids(nodes) <==> exists nr :: nr in nodes && nr.nodeId == ""
  {
    forall nr | nr in nodes && nr.nodeId == "" ensures "" in Ids(nodes) {
      var k :| 0 <= k < |nodes| && nodes[k] == nr;
      assert Ids(nodes)[k] == "";
    }
    if "" in Ids(nodes) {
      var k :| 0 <= k < |nodes| && Ids(nodes)[k] == "";
      assert nodes[k] in nodes;
    }
  }

  lemma {:induction false} GoodFacts(env: RandomEnv, nodes: seq<NodeRandom>)
    ensures forall nr :: nr in Good(env, nodes) <==> nr in nodes && GoodNode(env, nr)
    ensures |Good(env, nodes)| <= |nodes|
  {
    if nodes != [] {
      var front, last := nodes[..|nodes| - 1], nodes[|nodes| - 1];
      GoodFacts(env, front);
      assert nodes == front + [last];
    }
  }

  method CreateValidationVector(env: RandomEnv, validatorsRequired: int, networkRandom: seq<NodeRandom>,
                                seed: string, nodesToSkip: seq<NodeId>)
    returns (r: Result<seq<NodeId>>)
    ensures r == ValidationVector(env, validatorsRequired, networkRandom, seed, Elems(nodesToSkip))
  {
    var goodNodesOnline: seq<NodeId> := [];
    var mapIdToRandom: map<NodeId, seq<Byte>> := map[];
    for j := 0 to |networkRandom|
      invariant "" !in Ids(networkRandom[..j])
      invariant goodNodesOnline == Ids(Good(env, networkRandom[..j]))
      invariant mapIdToRandom == RandomsById(Good(env, networkRandom[..j]))
    {
      var nodeRandom := networkRandom[j];
      assert networkRandom[..j + 1][..j] == networkRandom[..j];
      assert Ids(networkRandom[..j + 1]) == Ids(networkRandom[..j]) + [nodeRandom.nodeId];
      if nodeRandom.nodeId == "" {
        assert Ids(networkRandom)[j] == "";
        return Thrown("Str empty check failed");
      }
      if GoodNode(env, nodeRandom) {
        ghost var good := Good(env, networkRandom[..j]);
        assert (good + [nodeRandom])[..|good|] == good;
        goodNodesOnline := goodNodesOnline + [nodeRandom.nodeId];
        mapIdToRandom := mapIdToRandom[nodeRandom.nodeId := nodeRandom.random];
      }
    }
    assert networkRandom[..|networkRandom|] == networkRandom;
    if env.contract.nodeRandomMinCount != 0 && |goodNodesOnline| < env.contract.nodeRandomMinCount {
      return Thrown("not enough Node Random replies to build a random vector");
    }
    r := CalculateValidationVector(goodNodesOnline, mapIdToRandom, validatorsRequired, seed, nodesToSkip, env.sha512);
  }

  // ---------------------------------------------------------------- the order of the randoms does not matter

  lemma {:induction false} GoodCount(env: RandomEnv, nodes: seq<NodeRandom>, nr: NodeRandom)
    ensures multiset(Good(env, nodes))[nr] == if GoodNode(env, nr) then multiset(nodes)[nr] else 0
  {
    if nodes != [] {
      var front, last := nodes[..|nodes| - 1], nodes[|nodes| - 1];
      GoodCount(env, front, nr);
      assert nodes == front + [last];
    }
  }

  lemma GoodPermuted(env: RandomEnv, s: seq<NodeRandom>, t: seq<NodeRandom>)
    requires Permutation(s, t)
    ensures Permutation(Good(env, s), Good(env, t))
  {
    forall nr ensures multiset(Good(env, s))[nr] == multiset(Good(env, t))[nr] {
      GoodCount(env, s, nr);
      GoodCount(env, t, nr);
    }
  }

  lemma {:induction false} IdsPermuted(s: seq<NodeRandom>, t: seq<NodeRandom>)
    requires Permutation(s, t)
    ensures Permutation(Ids(s), Ids(t))
  {
    PermutationBasics(s, t);
    if s == [] {
      assert Ids(s) == Ids(t);
    } else {
      var k := PermutationStep(s, t);
      IdsPermuted(s[1..], RemoveAt(t, k));
      assert Ids(s) == [s[0].nodeId] + Ids(s[1..]);
      assert Ids(RemoveAt(t, k)) == RemoveAt(Ids(t), k);
      RemoveAtMultiset(Ids(t), k);
    }
  }

  lemma {:induction false} RandomsByIdKeys(s: seq<NodeRandom>)
    ensures RandomsById(s).Keys == Elems(Ids(s))
  {
    if s != [] {
      var front, last := s[..|s| - 1], s[|s| - 1];
      RandomsByIdKeys(front);
      assert Ids(s) == Ids(front) + [last.nodeId];
    }
  }

  lemma {:induction false} RandomsByIdAt(s: seq<NodeRandom>, k: nat)
    requires Distinct(Ids(s)) && k < |s|
    ensures s[k].nodeId in RandomsById(s) && RandomsById(s)[s[k].nodeId] == s[k].random
  {
    var front := s[..|s| - 1];
    if k < |front| {
      assert forall i :: 0 <= i < |front| ==> Ids(front)[i] == Ids(s)[i];
      RandomsByIdAt(front, k);
      assert Ids(s)[k] != Ids(s)[|s| - 1];
    }
  }

  lemma RandomsByIdPermuted(s: seq<NodeRandom>, t: seq<NodeRandom>)
    requires Permutation(s, t) && Distinct(Ids(s))
    ensures RandomsById(s) == RandomsById(t)
  {
    IdsPermuted(s, t);
    PermutationDistinct(Ids(s), Ids(t));
    PermutationBasics(Ids(s), Ids(t));
    PermutationBasics(s, t);
    RandomsByIdKeys(s);
    RandomsByIdKeys(t);
    forall id | id in RandomsById(s) ensures RandomsById(s)[id] == RandomsById(t)[id] {
      assert id in Ids(s);
      var k :| 0 <= k < |s| && Ids(s)[k] == id;
      assert s[k] in t;
      var j :| 0 <= j < |t| && t[j] == s[k];
      RandomsByIdAt(s, k);
      RandomsByIdAt(t, j);
    }
  }

  lemma SelectPermuted(s: seq<NodeRandom>, t: seq<NodeRandom>, required: int, seed: string,
                       ban: set<NodeId>, sha512: Sha512)
    requires Permutation(s, t)
    ensures SelectCommittee(Ids(s), RandomsById(s), required, seed, ban, sha512)
         == SelectCommittee(Ids(t), RandomsById(t), required, seed, ban, sha512)
  {
    IdsPermuted(s, t);
    PermutationBasics(Ids(s), Ids(t));
    RandomsByIdKeys(s);
    RandomsByIdKeys(t);
    SortCanonical(Ids(s), Ids(t));
    assert |RandomsById(s)| == |RandomsById(s).Keys| && |RandomsById(t)| == |RandomsById(t).Keys|;
    DistinctIffFull(Ids(s));
    if Distinct(Ids(s)) {
      RandomsByIdPermuted(s, t);
      if |s| == 1 {
        assert Ids(s)[0] in Ids(t);
      }
    }
  }

  /**
   The committee depends on the node randoms only as a multiset: any two nodes that hold the same
   randoms in a different order compute the same vector, or fail alike.
   */
  lemma OrderIndependent(env: RandomEnv, required: int, s: seq<NodeRandom>, t: seq<NodeRandom>,
                         seed: string, ban: set<NodeId>)
    requires Permutation(s, t)
    ensures ValidationVector(env, required, s, seed, ban) == ValidationVector(env, required, t, seed, ban)
  {
    IdsPermuted(s, t);
    PermutationBasics(Ids(s), Ids(t));
    GoodPermuted(env, s, t);
    PermutationBasics(Good(env, s), Good(env, t));
    SelectPermuted(Good(env, s), Good(env, t), required, seed, ban, env.sha512);
  }

  // ---------------------------------------------------------------- tokens

  lemma {:induction false} DrawShape(pool: seq<NodeId>, bytes: seq<Byte>, ban: set<NodeId>, required: nat,
                                     picked: seq<NodeId>)
    requires Distinct(picked)
    ensures Draw(pool, bytes, ban, required, picked).Ok? ==>
              var r := Draw(pool, bytes, ban, required, picked).value;
              && |r| == required && Distinct(r)
              && forall id :: id in r ==> id in picked || (id in pool && id !in ban)
    decreases |bytes|
  {
    if bytes != [] && |picked| < required && pool != [] {
      var x := bytes[0] % |pool|;
      DrawShape(RemoveAt(pool, x), bytes[1..], ban, required,
                if pool[x] in ban then picked else AddNew(picked, pool[x]));
    }
  }

  /**
   Skipped ids are left out of a selection, whatever the sizes, with exactly one exception: a single node
   is taken without looking whether it is to be skipped.
   */
  lemma SkippedUnlessAlone(nodes: seq<NodeId>, randoms: map<NodeId, seq<Byte>>, required: int, seed: string,
                           ban: set<NodeId>, sha512: Sha512)
    requires SelectCommittee(nodes, randoms, required, seed, ban, sha512).Ok?
    ensures (forall id :: id in SelectCommittee(nodes, randoms, required, seed, ban, sha512).value ==> id !in ban)
       <==> |nodes| != 1 || nodes[0] !in ban
  {
    var v := SelectCommittee(nodes, randoms, required, seed, ban, sha512).value;
    if |nodes| == 1 {
      assert v == [nodes[0]];
      assert v[0] in v;
    } else {
      var sorted := SortAsc(nodes);
      DrawShape(sorted, sha512(seed, HashInput(sorted, randoms).value), ban, required, []);
    }
  }

  /** The exception: the only node is its own attestor, although an attestation skips the validator. */
  lemma LoneValidatorAttestsItself(env: RandomEnv, nr: NodeRandom)
    requires GoodNode(env, nr) && nr.nodeId != ""
    requires env.contract.valPerBlock == 2 && env.contract.nodeRandomMinCount <= 1
    ensures CreateAttestToken(env, nr.nodeId, [nr]) == Ok((AttestToken([nr]), [nr.nodeId]))
  {
    assert [nr][..0] == [];
    assert Good(env, [nr]) == [nr];
    assert Ids([nr]) == [nr.nodeId];
    RandomsByIdKeys([nr]);
    assert |RandomsById([nr])| == |RandomsById([nr]).Keys|;
  }

  /**
   Whatever the randoms are, a vector has the requested size, no repetition, and only registered, trusted
   nodes; none of them is to be skipped, unless it is the only one that is online.
   */
  lemma VectorShape(env: RandomEnv, required: int, nodes: seq<NodeRandom>, seed: string, ban: set<NodeId>)
    requires ValidationVector(env, required, nodes, seed, ban).Ok?
    ensures var v := ValidationVector(env, required, nodes, seed, ban).value;
            && |v| == required && Distinct(v)
            && (forall id :: id in v ==> id in env.contract.vnodes && exists nr :: nr in nodes && GoodNode(env, nr) && nr.nodeId == id)
            && ((forall id :: id in v ==> id !in ban) <==> |Good(env, nodes)| != 1 || Good(env, nodes)[0].nodeId !in ban)
  {
    var good := Good(env, nodes);
    var sorted := SortAsc(Ids(good));
    GoodFacts(env, nodes);
    SkippedUnlessAlone(Ids(good), RandomsById(good), required, seed, ban, env.sha512);
    PermutationBasics(sorted, Ids(good));
    if |good| != 1 {
      DrawShape(sorted, env.sha512(seed, HashInput(sorted, RandomsById(good)).value), ban, required, []);
    }
    var v := ValidationVector(env, required, nodes, seed, ban).value;
    forall id | id in v
      ensures id in env.contract.vnodes && exists nr :: nr in nodes && GoodNode(env, nr) && nr.nodeId == id
    {
      assert id in Ids(good);
      var k :| 0 <= k < |good| && Ids(good)[k] == id;
      assert good[k] in good;
    }
  }

  /** Two nodes see the same contract, use the same hash and agree on which of the randoms are usable. */
  ghost predicate SameView(e: RandomEnv, f: RandomEnv, nodes: seq<NodeRandom>) {
    && e.contract == f.contract && e.sha512 == f.sha512
    && forall nr :: nr in nodes ==> (GoodNode(e, nr) <==> GoodNode(f, nr))
  }

  lemma {:induction false} GoodSameView(e: RandomEnv, f: RandomEnv, nodes: seq<NodeRandom>)
    requires SameView(e, f, nodes)
    ensures Good(e, nodes) == Good(f, nodes)
  {
    if nodes != [] {
      var front := nodes[..|nodes| - 1];
      assert forall nr :: nr in front ==> nr in nodes;
      GoodSameView(e, f, front);
    }
  }

  /** The usable randoms stay the same while nothing gets older than an hour. */
  lemma NoAgeing(e: RandomEnv, f: RandomEnv, nodes: seq<NodeRandom>)
    requires e.contract == f.contract && e.sha512 == f.sha512 && e.timeoutDisabled == f.timeoutDisabled
    requires e.now <= f.now
    requires e.timeoutDisabled || forall nr :: nr in nodes ==> nr.tsMillis > f.now - HOUR_MILLIS
    ensures SameView(e, f, nodes)
  {}

  function CreateValidatorToken(env: RandomEnv, randomMap: seq<NodeRandom>): Result<(Token, NodeId)> {
    if randomMap == [] then Thrown("random not synced")
    else
      var v := ValidationVector(env, 1, randomMap, "client", {});
      if v.Thrown? then Thrown(v.reason)
      else if |v.value| == 0 || v.value[0] !in env.contract.vnodes then Thrown("no url")
      else Ok((ValidatorToken(randomMap), v.value[0]))
  }

  function CheckValidatorToken(env: RandomEnv, token: Token, expectedNodeId: NodeId): Result<bool> {
    match token
    case ValidatorToken(nodes) =>
      var v := ValidationVector(env, 1, nodes, "client", {});
      if v.Thrown? then Thrown(v.reason)
      else Ok(|v.value| == 1 && v.value[0] == expectedNodeId)
    case AttestToken(_) => Ok(false)
    case Text(text) => if VAL_TOKEN_PREFIX <= text then Thrown("not a network random") else Ok(false)
  }

  function CreateAttestToken(env: RandomEnv, self: NodeId, randomMap: seq<NodeRandom>): Result<(Token, seq<NodeId>)> {
    if randomMap == [] then Thrown("random not synced")
    else
      var v := ValidationVector(env, env.contract.valPerBlock - 1, randomMap, "attest", {self});
      if v.Thrown? then Thrown(v.reason) else Ok((AttestToken(randomMap), v.value))
  }

  /** As coded: the looked-up node plays no role, any non-empty vector is accepted. */
  function CheckAttestToken(env: RandomEnv, validatorToExclude: Option<NodeId>, token: Token): Result<bool> {
    match token
    case AttestToken(nodes) =>
      var ban := if validatorToExclude.Some? then {validatorToExclude.value} else {};
      var v := ValidationVector(env, env.contract.valPerBlock - 1, nodes, "attest", ban);
      if v.Thrown? then Thrown(v.reason) else Ok(|v.value| > 0)
    case ValidatorToken(_) => Ok(false)
    case Text(text) => if ATT_TOKEN_PREFIX <= text then Thrown("not a network random") else Ok(false)
  }

  /** For whom a node accepts a client token, and for whom one is made. */
  lemma ClientTokenMeans(env: RandomEnv, token: Token, id: NodeId, randomMap: seq<NodeRandom>)
    ensures CheckValidatorToken(env, token, id) == Ok(true) <==>
              token.ValidatorToken? && ValidationVector(env, 1, token.nodes, "client", {}) == Ok([id])
    ensures CreateValidatorToken(env, randomMap) == Ok((token, id)) ==>
              token == ValidatorToken(randomMap) && ValidationVector(env, 1, randomMap, "client", {}) == Ok([id])
  {
    hide ValidationVector;
    if token.ValidatorToken? && ValidationVector(env, 1, token.nodes, "client", {}).Ok? {
      var v := ValidationVector(env, 1, token.nodes, "client", {}).value;
      assert |v| == 1 ==> v == [v[0]];
    }
    if CreateValidatorToken(env, randomMap).Ok? {
      VectorShape(env, 1, randomMap, "client", {});
      var v := ValidationVector(env, 1, randomMap, "client", {}).value;
      assert v == [v[0]];
    }
  }

  /** Which attestors a validator draws, and which attest tokens others accept. */
  lemma AttestTokenMeans(env: RandomEnv, token: Token, self: NodeId, randomMap: seq<NodeRandom>, vector: seq<NodeId>,
                         excluded: Option<NodeId>)
    ensures CreateAttestToken(env, self, randomMap) == Ok((token, vector)) <==>
              && token == AttestToken(randomMap) && randomMap != []
              && ValidationVector(env, env.contract.valPerBlock - 1, randomMap, "attest", {self}) == Ok(vector)
    ensures CheckAttestToken(env, excluded, token) == Ok(true) <==>
              && token.AttestToken?
              && var ban := if excluded.Some? then {excluded.value} else {};
                 ValidationVector(env, env.contract.valPerBlock - 1, token.nodes, "attest", ban).Ok?
  {
    hide ValidationVector;
    if token.AttestToken? {
      var ban := if excluded.Some? then {excluded.value} else {};
      var v := ValidationVector(env, env.contract.valPerBlock - 1, token.nodes, "attest", ban);
      if v.Ok? {
        VectorShape(env, env.contract.valPerBlock - 1, token.nodes, "attest", ban);
        NeverEmpty(env, env.contract.valPerBlock - 1, token.nodes, "attest", ban);
      }
    }
  }

  lemma NeverEmpty(env: RandomEnv, required: int, nodes: seq<NodeRandom>, seed: string, ban: set<NodeId>)
    requires ValidationVector(env, required, nodes, seed, ban).Ok?
    ensures required >= 1
  {}

  /**
   The validator a token was made for is the only one that every other node with the same view
   accepts it for, also when the token lists the randoms in another order.
   */
  lemma TokenLeadsToItsValidator(maker: RandomEnv, checker: RandomEnv, randomMap: seq<NodeRandom>,
                                 shuffled: seq<NodeRandom>, nodeId: NodeId)
    requires CreateValidatorToken(maker, randomMap).Ok?
    requires SameView(maker, checker, randomMap) && Permutation(randomMap, shuffled)
    ensures CheckValidatorToken(checker, ValidatorToken(shuffled), nodeId)
         == Ok(nodeId == CreateValidatorToken(maker, randomMap).value.1)
  {
    VectorShape(maker, 1, randomMap, "client", {});
    GoodSameView(maker, checker, randomMap);
    OrderIndependent(checker, 1, randomMap, shuffled, "client", {});
  }

  /** A token is created unless the randoms are unusable: creation fails only when selection itself fails. */
  lemma TokenCreated(env: RandomEnv, randomMap: seq<NodeRandom>)
    ensures CreateValidatorToken(env, randomMap).Ok? <==>
              randomMap != [] && ValidationVector(env, 1, randomMap, "client", {}).Ok?
  {
    if ValidationVector(env, 1, randomMap, "client", {}).Ok? {
      VectorShape(env, 1, randomMap, "client", {});
      var v := ValidationVector(env, 1, randomMap, "client", {}).value;
      assert v[0] in v;
    }
  }
}
