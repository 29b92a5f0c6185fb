/**
 A run in which every node is honest and sees the same contract: when does a proposed block come out
 finalized, and who has signed it?
 */
module HonestRun {
  import opened Prelude
  import opened ValidatorRandom
  import opened BlockPb
  import opened BlockUtil
  import opened BlockAssembly
  import opened ValidatorNode

  /** The same rules for transactions and blocks; only the clocks may differ, as far as the block's age allows. */
  ghost predicate SameRules(e: CheckEnv, f: CheckEnv, b: Block) {
    && e == f.(now := e.now, checkTx := e.checkTx)
    && (forall tx :: e.checkTx(tx) == f.checkTx(tx))
    && (f.maxAgeSeconds > 0 ==> Abs(b.ts - f.now) <= 1000 * f.maxAgeSeconds)
  }

  /** Two nodes agree on everything that matters for block `b`. */
  ghost predicate Agree(e: NodeEnv, f: NodeEnv, b: Block) {
    && SameRules(e.check, f.check, b)
    && (b.attestToken.AttestToken? ==> SameView(e.random, f.random, b.attestToken.nodes))
    && (forall i :: 0 <= i < |b.txs| && b.txs[i].tx.Some? && b.txs[i].tx.value.apiToken.ValidatorToken? ==>
          SameView(e.random, f.random, b.txs[i].tx.value.apiToken.nodes))
    && e.random.contract == f.random.contract
  }

  lemma AgreeOnContract(e: NodeEnv, f: NodeEnv, b: Block)
    requires Agree(e, f, b)
    ensures e.random.contract == f.random.contract
  {}

  /** At least two different usable nodes are online, the validator among them. */
  ghost predicate Online(env: RandomEnv, self: NodeId, randomMap: seq<NodeRandom>) {
    var good := Good(env, randomMap);
    && "" !in Ids(randomMap)
    && Distinct(Ids(good)) && |good| >= 2 && self in Ids(good)
    && 2 <= env.contract.valPerBlock <= 51
    && env.contract.nodeRandomMinCount <= |good|
  }

  /** As many usable nodes as the contract wants signatures on a block. */
  predicate CommitteeAvailable(env: RandomEnv, randomMap: seq<NodeRandom>) {
    env.contract.valPerBlock <= |Good(env, randomMap)|
  }

  /** What `sendTransaction` has checked about each transaction of the mempool. */
  ghost predicate Admitted(env: NodeEnv, self: NodeId, txs: seq<Transaction>) {
    forall i :: 0 <= i < |txs| ==>
      && env.check.checkTx(txs[i])
      && txs[i].size <= env.check.maxTxSize
      && CheckValidatorToken(env.random, txs[i].apiToken, self) == Ok(true)
  }

  function Proposed(env: NodeEnv, self: NodeId, txs: seq<Transaction>, randomMap: seq<NodeRandom>): Block {
    SignedByValidator(self, UnsignedBlock(env.check.now, AttestToken(randomMap), txs))
  }

  function HonestPatch(a: NodeId, b: Block): Patch {
    var votes := seq(|b.txs|, _ => Vote(ACCEPTED));
    Patch(votes, Signature(a, WithColumn(b, votes)))
  }

  /** The block fits what attestors accept: strictly fewer than the maximum of transactions. */
  predicate Fits(env: CheckEnv, txs: seq<Transaction>) {
    |txs| < env.maxTxs && MempoolBytes(txs) <= env.maxTotalSize
  }

  // ---------------------------------------------------------------- the committee

  /** The committee without one of the online nodes exists exactly when enough nodes are online. */
  lemma CommitteeWithout(env: RandomEnv, self: NodeId, skipped: NodeId, randomMap: seq<NodeRandom>)
    requires Online(env, self, randomMap) && skipped in Ids(Good(env, randomMap))
    ensures var v := ValidationVector(env, env.contract.valPerBlock - 1, randomMap, "attest", {skipped});
            && (v.Ok? <==> CommitteeAvailable(env, randomMap))
            && (v.Ok? ==> CommitteeFrom(v.value, env.contract.valPerBlock - 1, Elems(Ids(Good(env, randomMap))), {skipped}))
  {
    var good := Good(env, randomMap);
    var ids := Ids(good);
    RandomsByIdKeys(good);
    DistinctIffFull(ids);
    assert Elems(ids) * {skipped} == {skipped};
    assert |Elems(ids) - {skipped}| == |ids| - 1;
    CommitteeExact(ids, RandomsById(good), env.contract.valPerBlock - 1, "attest", {skipped}, env.sha512);
  }

  lemma AttestTokenUsable(env: RandomEnv, other: RandomEnv, self: NodeId, excluded: NodeId, randomMap: seq<NodeRandom>)
    requires Online(env, self, randomMap) && CommitteeAvailable(env, randomMap) && SameView(env, other, randomMap)
    requires excluded in Ids(Good(env, randomMap))
    ensures CheckAttestToken(other, Some(excluded), AttestToken(randomMap)) == Ok(true)
  {
    GoodSameView(env, other, randomMap);
    CommitteeWithout(env, self, excluded, randomMap);
  }

  lemma TokenSameView(e: RandomEnv, f: RandomEnv, token: Token, nodeId: NodeId)
    requires e.contract == f.contract && (token.ValidatorToken? ==> SameView(e, f, token.nodes))
    ensures CheckValidatorToken(e, token, nodeId) == CheckValidatorToken(f, token, nodeId)
  {
    if token.ValidatorToken? {
      GoodSameView(e, f, token.nodes);
    }
  }

  // ---------------------------------------------------------------- the proposed block

  lemma {:induction false} SizeOfProposed(txs: seq<Transaction>, values: seq<TxValue>)
    requires |values| == |txs| && forall i :: 0 <= i < |txs| ==> values[i].tx == Some(txs[i])
    ensures TotalSize(values) == MempoolBytes(txs)
  {
    if txs != [] {
      SizeOfProposed(txs[..|txs| - 1], values[..|txs| - 1]);
    }
  }

  lemma ProposedFacts(env: NodeEnv, self: NodeId, txs: seq<Transaction>, randomMap: seq<NodeRandom>)
    ensures var b := Proposed(env, self, txs, randomMap);
            && OnlyValidatorSigned(b) && Serializable(b) && RecoverSigner(b, 0) == Ok(Some(self))
            && |b.txs| == |txs| && b.ts == env.check.now && b.attestToken == AttestToken(randomMap)
            && TotalSize(b.txs) == MempoolBytes(txs)
            && forall i :: 0 <= i < |txs| ==> b.txs[i] == TxValue(Some(txs[i]), Some(ACCEPTED), [])
  {
    var unsigned := UnsignedBlock(env.check.now, AttestToken(randomMap), txs);
    ValidatorSignatureRecovered(self, unsigned);
    var b := Proposed(env, self, txs, randomMap);
    SizeOfProposed(txs, b.txs);
  }

  /** An attestor's rules hold for the block, before and after patches, exactly when it fits. */
  lemma RulesIffFits(env: NodeEnv, other: NodeEnv, self: NodeId, txs: seq<Transaction>, randomMap: seq<NodeRandom>,
                     patches: seq<Patch>)
    requires Admitted(env, self, txs)
    requires Agree(env, other, Proposed(env, self, txs, randomMap))
    ensures AttestorRules(other.check, Assemble(Proposed(env, self, txs, randomMap), patches)) <==> Fits(env.check, txs)
  {
    var b := Proposed(env, self, txs, randomMap);
    ProposedFacts(env, self, txs, randomMap);
    var B := Assemble(b, patches);
    AssembleShape(b, patches);
    SizeOfProposed(txs, B.txs);
    forall i | 0 <= i < |B.txs| ensures GoodTx(other.check, B.txs[i]) && |B.txs[i].attestorVotes| == |B.signers| - 1 {
      assert b.txs[i] == TxValue(Some(txs[i]), Some(ACCEPTED), []);
    }
  }

  // ---------------------------------------------------------------- the two rounds

  lemma HonestAttestation(env: NodeEnv, other: NodeEnv, self: NodeId, a: NodeId, txs: seq<Transaction>,
                          randomMap: seq<NodeRandom>)
    requires Admitted(env, self, txs) && self in ActiveValidators(env.random.contract)
    requires Agree(env, other, Proposed(env, self, txs, randomMap))
    ensures var b := Proposed(env, self, txs, randomMap);
            if Fits(env.check, txs) then Attestation(other, a, b) == Ok(HonestPatch(a, b)) else Attestation(other, a, b).Thrown?
  {
    var b := Proposed(env, self, txs, randomMap);
    ProposedFacts(env, self, txs, randomMap);
    RulesIffFits(env, other, self, txs, randomMap, []);
    if Fits(env.check, txs) {
      assert SignedByOneOf(b, 0, ActiveValidators(other.random.contract));
      forall i | 0 <= i < |b.txs| && b.txs[i].tx.Some?
        ensures CheckValidatorToken(other.random, b.txs[i].tx.value.apiToken, self) == Ok(true)
        ensures VotesOn(other.check, b)[i] == Vote(ACCEPTED)
      {
        assert b.txs[i] == TxValue(Some(txs[i]), Some(ACCEPTED), []);
        TokenSameView(env.random, other.random, txs[i].apiToken, self);
      }
      assert VotesOn(other.check, b) == HonestPatch(a, b).votes;
    }
  }

  function HonestPatches(attestors: seq<NodeId>, b: Block): (r: seq<Patch>)
    ensures |r| == |attestors|
  {
    seq(|attestors|, j requires 0 <= j < |attestors| => HonestPatch(attestors[j], b))
  }

  lemma HonestPatchRecovered(a: NodeId, b: Block)
    requires OnlyValidatorSigned(b)
    ensures Complete(HonestPatch(a, b), |b.txs|)
    ensures RecoverPatch(b, HonestPatch(a, b)) == Ok(Some(a))
  {}

  lemma {:induction false} HonestRoundOne(b: Block, attestors: seq<NodeId>, net: Network)
    requires OnlyValidatorSigned(b)
    requires forall j :: 0 <= j < |attestors| ==> net.attestBlock(attestors[j], b) == Ok(HonestPatch(attestors[j], b))
    ensures CollectPatches(b, attestors, net) == Ok(HonestPatches(attestors, b))
  {
    if attestors != [] {
      var front, last := attestors[..|attestors| - 1], attestors[|attestors| - 1];
      HonestRoundOne(b, front, net);
      HonestPatchRecovered(last, b);
      assert HonestPatches(attestors, b) == HonestPatches(front, b) + [HonestPatch(last, b)];
    } else {
      assert HonestPatches(attestors, b) == [];
    }
  }

  /** The signers of a block assembled from honest patches, in order. */
  lemma HonestSigners(b: Block, self: NodeId, attestors: seq<NodeId>, k: nat)
    requires OnlyValidatorSigned(b) && RecoverSigner(b, 0) == Ok(Some(self))
    requires k <= |attestors|
    ensures Serializable(Assemble(b, HonestPatches(attestors, b)))
    ensures RecoverSigner(Assemble(b, HonestPatches(attestors, b)), k) == Ok(Some(([self] + attestors)[k]))
  {
    var patches := HonestPatches(attestors, b);
    forall j | 0 <= j < |attestors| ensures Complete(patches[j], |b.txs|) {
      HonestPatchRecovered(attestors[j], b);
    }
    AssembledSerializable(b, patches);
    if k == 0 {
      RecoveryFindsValidator(b, patches);
    } else {
      RecoveryUndoesAssembly(b, patches, k);
      HonestPatchRecovered(attestors[k - 1], b);
    }
  }

  lemma HonestVotes(b: Block, attestors: seq<NodeId>)
    requires OnlyValidatorSigned(b)
    ensures VotesValid(Assemble(b, HonestPatches(attestors, b)))
  {
    var patches := HonestPatches(attestors, b);
    var B := Assemble(b, patches);
    AssembleShape(b, patches);
    forall i, j | 0 <= i < |B.txs| && 0 <= j < |B.txs[i].attestorVotes| ensures B.txs[i].attestorVotes[j] == Vote(ACCEPTED) {
      AssembledVotes(b, patches, i);
    }
  }

  /** The assembled block passes the final check of every node that agrees with the validator. */
  lemma HonestFinal(env: NodeEnv, other: NodeEnv, self: NodeId, txs: seq<Transaction>, randomMap: seq<NodeRandom>,
                    attestors: seq<NodeId>)
    requires Admitted(env, self, txs) && Fits(env.check, txs)
    requires Agree(env, other, Proposed(env, self, txs, randomMap))
    requires |attestors| == env.random.contract.valPerBlock - 1
    requires forall id :: id in [self] + attestors ==> id in env.random.contract.vnodes
    ensures var b := Proposed(env, self, txs, randomMap);
            var contract := other.random.contract;
            FinalVerdict(other.check, Assemble(b, HonestPatches(attestors, b)), contract.vnodes.Keys, contract.valPerBlock) == Success
  {
    hide FinalVerdict, AttestorRules, VotesValid, SignersVerdict, RecoverSigner, Agree, Admitted, Fits;
    var b := Proposed(env, self, txs, randomMap);
    var B := Assemble(b, HonestPatches(attestors, b));
    var contract := other.random.contract;
    var validators := contract.vnodes.Keys;
    assert env.random.contract == contract by { AgreeOnContract(env, other, b); }
    ProposedFacts(env, self, txs, randomMap);
    RulesIffFits(env, other, self, txs, randomMap, HonestPatches(attestors, b));
    AssembleShape(b, HonestPatches(attestors, b));
    HonestVotes(b, attestors);
    HonestSigners(b, self, attestors, 0);
    forall k | 0 <= k < |B.signers| ensures SignedByOneOf(B, k, validators) {
      HonestSigners(b, self, attestors, k);
      assert ([self] + attestors)[k] in [self] + attestors;
    }
    SignersAccepted(B, validators, 0);
    FinalizedIsStorageCheckPlusRules(other.check, B, validators, contract.valPerBlock);
  }

  lemma HonestRoundTwo(env: NodeEnv, other: NodeEnv, self: NodeId, a: nat, txs: seq<Transaction>, randomMap: seq<NodeRandom>,
                       attestors: seq<NodeId>, cache: map<BlockHash, Block>)
    requires Admitted(env, self, txs) && Fits(env.check, txs)
    requires Agree(env, other, Proposed(env, self, txs, randomMap))
    requires Online(env.random, self, randomMap) && CommitteeAvailable(env.random, randomMap)
    requires a < |attestors| == env.random.contract.valPerBlock - 1
    requires forall id :: id in [self] + attestors ==> id in env.random.contract.vnodes && id in Ids(Good(env.random, randomMap))
    requires var b := Proposed(env, self, txs, randomMap); HashOf(b) in cache && cache[HashOf(b)] == b
    ensures var b := Proposed(env, self, txs, randomMap);
            var patches := HonestPatches(attestors, b);
            FinalizedBlock(other, attestors[a], cache, RequestFor(b, patches)) == Ok(Assemble(b, patches))
  {
    var b := Proposed(env, self, txs, randomMap);
    var patches := HonestPatches(attestors, b);
    ProposedFacts(env, self, txs, randomMap);
    HonestFinal(env, other, self, txs, randomMap, attestors);
    forall j | 0 <= j < |patches| ensures PatchAccepted(other, b, patches, j) {
      HonestPatchRecovered(attestors[j], b);
      HonestPatchRecovered(attestors[0], b);
      assert attestors[0] in [self] + attestors && attestors[j] in [self] + attestors;
      AttestTokenUsable(env.random, other.random, self, attestors[0], randomMap);
    }
    HonestPatchRecovered(attestors[a], b);
    assert PatchAddress(b, patches[a]) == Some(attestors[a]);
  }

  /**
   The network in which every node answers as the code says. The clocks may have moved between the
   two rounds; a node that remembered the block in the first round still has it in the second.
   */
  ghost predicate HonestNetwork(net: Network, env: NodeEnv, first: NodeId -> NodeEnv, second: NodeId -> NodeEnv,
                                caches: NodeId -> map<BlockHash, Block>, b: Block)
  {
    forall a ::
      && Agree(env, first(a), b) && Agree(env, second(a), b)
      && net.attestBlock(a, b) == Attestation(first(a), a, b)
      && (Remembered(first(a), b) ==> HashOf(b) in caches(a) && caches(a)[HashOf(b)] == b)
      && forall rq :: net.attestSignatures(a, rq).Ok? <==> FinalizedBlock(second(a), a, caches(a), rq).Ok?
  }

  /** The committee that the validator draws for its block. */
  function Committee(env: RandomEnv, self: NodeId, randomMap: seq<NodeRandom>): seq<NodeId> {
    var token := CreateAttestToken(env, self, randomMap);
    if token.Ok? then token.value.1 else []
  }

  lemma CommitteeFacts(env: RandomEnv, self: NodeId, randomMap: seq<NodeRandom>)
    requires Online(env, self, randomMap)
    ensures CreateAttestToken(env, self, randomMap).Ok? <==> CommitteeAvailable(env, randomMap)
    ensures CommitteeAvailable(env, randomMap) ==>
              var committee := Committee(env, self, randomMap);
              && CreateAttestToken(env, self, randomMap) == Ok((AttestToken(randomMap), committee))
              && |committee| == env.contract.valPerBlock - 1
              && Distinct([self] + committee)
              && forall id :: id in [self] + committee ==> id in env.contract.vnodes && id in Ids(Good(env, randomMap))
  {
    CommitteeWithout(env, self, self, randomMap);
    GoodFacts(env, randomMap);
    var good := Good(env, randomMap);
    assert randomMap != [];
    forall id | id in Ids(good) ensures id in env.contract.vnodes {
      var k :| 0 <= k < |good| && Ids(good)[k] == id;
      assert good[k] in good;
    }
  }

  /** The contract has not changed until the final checks, and the clock not too much. */
  ghost predicate Unchanged(env: NodeEnv, last: LastView, b: Block) {
    && SameRules(env.check, last.check, b)
    && last.validators == env.random.contract.vnodes.Keys
    && last.valPerBlock == last.valPerBlockAgain == env.random.contract.valPerBlock
  }

  /**
   A batch that does not fit is never finalized: not by any network, any committee or any contract, and
   whatever its transactions are.
   */
  lemma UnfitNeverFinalized(env: NodeEnv, self: NodeId, txs: seq<Transaction>, randomMap: seq<NodeRandom>, net: Network,
                            last: LastView)
    requires !Fits(last.check, txs)
    ensures ProposalOutcome(env, self, txs, randomMap, net, last).Thrown?
  {
    hide CreateAttestToken, CollectPatches, RecoverSigner;
    var token := CreateAttestToken(env.random, self, randomMap);
    if token.Ok? {
      var b := SignedByValidator(self, UnsignedBlock(env.check.now, token.value.0, txs));
      var patches := CollectPatches(b, token.value.1, net);
      if patches.Ok? {
        AssembleShape(b, patches.value);
        SizeOfProposed(txs, Assemble(b, patches.value).txs);
        assert !AttestorRules(last.check, Assemble(b, patches.value));
      }
    }
  }

  /** Every member of the committee attests the block with a vote for everything, and accepts the result. */
  lemma HonestAnswers(env: NodeEnv, self: NodeId, txs: seq<Transaction>, randomMap: seq<NodeRandom>, net: Network,
                      first: NodeId -> NodeEnv, second: NodeId -> NodeEnv, caches: NodeId -> map<BlockHash, Block>, j: nat)
    requires Admitted(env, self, txs) && self in ActiveValidators(env.random.contract)
    requires Online(env.random, self, randomMap) && CommitteeAvailable(env.random, randomMap)
    requires HonestNetwork(net, env, first, second, caches, Proposed(env, self, txs, randomMap))
    requires Fits(env.check, txs) && j < |Committee(env.random, self, randomMap)|
    ensures var b, committee := Proposed(env, self, txs, randomMap), Committee(env.random, self, randomMap);
            && net.attestBlock(committee[j], b) == Ok(HonestPatch(committee[j], b))
            && net.attestSignatures(committee[j], RequestFor(b, HonestPatches(committee, b))).Ok?
  {
    var committee := Committee(env.random, self, randomMap);
    var a := committee[j];
    CommitteeFacts(env.random, self, randomMap);
    HonestAttestation(env, first(a), self, a, txs, randomMap);
    HonestRoundTwo(env, second(a), self, j, txs, randomMap, committee, caches(a));
  }

  lemma HonestRounds(b: Block, committee: seq<NodeId>, net: Network, last: LastView)
    requires OnlyValidatorSigned(b)
    requires forall j :: 0 <= j < |committee| ==>
               && net.attestBlock(committee[j], b) == Ok(HonestPatch(committee[j], b))
               && net.attestSignatures(committee[j], RequestFor(b, HonestPatches(committee, b))).Ok?
    requires SelfChecked(last, Assemble(b, HonestPatches(committee, b)))
    ensures RoundsOutcome(b, committee, net, last) == Ok(Assemble(b, HonestPatches(committee, b)))
  {
    hide SelfChecked, HonestPatch, HonestPatches, Assemble, RequestFor, CollectPatches, OnlyValidatorSigned;
    HonestRoundOne(b, committee, net);
  }

  lemma FitSucceeds(env: NodeEnv, self: NodeId, txs: seq<Transaction>, randomMap: seq<NodeRandom>, net: Network,
                    first: NodeId -> NodeEnv, second: NodeId -> NodeEnv, caches: NodeId -> map<BlockHash, Block>,
                    last: LastView)
    requires Admitted(env, self, txs) && self in ActiveValidators(env.random.contract)
    requires Online(env.random, self, randomMap) && CommitteeAvailable(env.random, randomMap)
    requires HonestNetwork(net, env, first, second, caches, Proposed(env, self, txs, randomMap))
    requires Fits(env.check, txs) && Unchanged(env, last, Proposed(env, self, txs, randomMap))
    ensures var b := Proposed(env, self, txs, randomMap);
            var block := Assemble(b, HonestPatches(Committee(env.random, self, randomMap), b));
            SelfChecked(last, block) && ProposalOutcome(env, self, txs, randomMap, net, last) == Ok(block)
  {
    hide HonestPatch, HonestPatches, Assemble, RequestFor, FinalVerdict, RoundsOutcome, Attestation, FinalizedBlock, SelfChecked;
    var b := Proposed(env, self, txs, randomMap);
    var committee := Committee(env.random, self, randomMap);
    CommitteeFacts(env.random, self, randomMap);
    ProposedFacts(env, self, txs, randomMap);
    forall j | 0 <= j < |committee|
      ensures net.attestBlock(committee[j], b) == Ok(HonestPatch(committee[j], b))
      ensures net.attestSignatures(committee[j], RequestFor(b, HonestPatches(committee, b))).Ok?
    {
      HonestAnswers(env, self, txs, randomMap, net, first, second, caches, j);
    }
    HonestFinal(env, env.(check := last.check), self, txs, randomMap, committee);
    SelfCheckedMeans(last, Assemble(b, HonestPatches(committee, b)));
    HonestRounds(b, committee, net, last);
  }

  /**
   The honest run: a batch of admitted transactions becomes a finalized block exactly when a committee
   is available and the batch fits the attestors' limits, which are stricter than the mempool's. The
   block then passes the final check and the storage node's check, and its signers are the validator
   and the committee it drew, all different and exactly as many as the contract asks for.
   */
  lemma HonestRunOutcome(env: NodeEnv, self: NodeId, txs: seq<Transaction>, randomMap: seq<NodeRandom>, net: Network,
                         first: NodeId -> NodeEnv, second: NodeId -> NodeEnv, caches: NodeId -> map<BlockHash, Block>,
                         last: LastView)
    requires Admitted(env, self, txs) && self in ActiveValidators(env.random.contract)
    requires Online(env.random, self, randomMap)
    requires HonestNetwork(net, env, first, second, caches, Proposed(env, self, txs, randomMap))
    requires Unchanged(env, last, Proposed(env, self, txs, randomMap))
    ensures var outcome := ProposalOutcome(env, self, txs, randomMap, net, last);
            var contract := env.random.contract;
            var signers := [self] + Committee(env.random, self, randomMap);
            && (outcome.Ok? <==> CommitteeAvailable(env.random, randomMap) && Fits(env.check, txs))
            && (outcome.Ok? ==>
                  && FinalVerdict(last.check, outcome.value, contract.vnodes.Keys, contract.valPerBlock) == Success
                  && SNodeVerdict(outcome.value, contract.vnodes.Keys, contract.valPerBlock) == Success
                  && |outcome.value.signers| == contract.valPerBlock == |signers| && Distinct(signers)
                  && forall k :: 0 <= k < |signers| ==> RecoverSigner(outcome.value, k) == Ok(Some(signers[k])))
  {
    hide RecoverSigner, FinalVerdict, SNodeVerdict, Assemble, HonestPatches;
    var b := Proposed(env, self, txs, randomMap);
    var contract := env.random.contract;
    var committee := Committee(env.random, self, randomMap);
    CommitteeFacts(env.random, self, randomMap);
    if !Fits(env.check, txs) {
      UnfitNeverFinalized(env, self, txs, randomMap, net, last);
    } else if CommitteeAvailable(env.random, randomMap) {
      FitSucceeds(env, self, txs, randomMap, net, first, second, caches, last);
      ProposedFacts(env, self, txs, randomMap);
      FinalizedShape(last.check, Assemble(b, HonestPatches(committee, b)), contract.vnodes.Keys, contract.valPerBlock);
      forall k | 0 <= k <= |committee| {
        HonestSigners(b, self, committee, k);
      }
    }
  }
}
