/**
 One validator node: it collects transactions, proposes blocks, attests blocks of other validators and
 finalizes them. Other nodes are reached through function parameters, which may answer anything.
 */
module ValidatorNode {
  import opened Prelude
  import opened ValidatorRandom
  import opened BlockPb
  import opened BlockUtil
  import opened BlockAssembly

  datatype NodeEnv = NodeEnv(check: CheckEnv, random: RandomEnv)

  datatype AttestSignaturesRequest = AttestSignaturesRequest(
    initialBlockHash: BlockHash, finalBlockHash: BlockHash, attestations: seq<Patch>)

  /** The network as a proposing validator sees it: what each node answers to each of its two calls. */
  datatype Network = Network(
    attestBlock: (NodeId, Block) -> Result<Patch>,
    attestSignatures: (NodeId, AttestSignaturesRequest) -> Result<()>)

  /**
   What the validator finds when it checks its own block, which is two network rounds after it drew the
   committee: its clock and rules, and the contract, whose number of signatures is read twice.
   */
  datatype LastView = LastView(check: CheckEnv, validators: set<NodeId>, valPerBlock: int, valPerBlockAgain: int)

  function ActiveValidators(c: ContractState): set<NodeId> {
    set id | id in c.vnodes && c.vnodes[id].isVNode && c.vnodes[id].enabled
  }

  // ---------------------------------------------------------------- proposing a block

  function UnsignedBlock(ts: int, token: Token, txs: seq<Transaction>): Block {
    Block(ts, token, seq(|txs|, i requires 0 <= i < |txs| => TxValue(Some(txs[i]), None, [])), [])
  }

  /** Every attestor has to answer with a patch whose votes cover the block. */
  function CollectPatches(b: Block, attestors: seq<NodeId>, net: Network): Result<seq<Patch>> {
    if attestors == [] then Ok([])
    else
      var front := CollectPatches(b, attestors[..|attestors| - 1], net);
      var reply := net.attestBlock(attestors[|attestors| - 1], b);
      if front.Thrown? then front
      else if reply.Thrown? || RecoverPatch(b, reply.value).Thrown? then Thrown("failed to attest by validator")
      else Ok(front.value + [reply.value])
  }

  function RequestFor(b: Block, patches: seq<Patch>): AttestSignaturesRequest {
    AttestSignaturesRequest(HashOf(b), HashOf(Assemble(b, patches)), patches)
  }

  /** Both checks that the validator makes before it publishes; the second one reads the contract again. */
  ghost predicate SelfChecked(last: LastView, b: Block) {
    && FinalVerdict(last.check, b, last.validators, last.valPerBlock) == Success
    && SNodeVerdict(b, last.validators, last.valPerBlockAgain) == Success
  }

  /** The second check can only fail because the contract asks for another number of signatures by then. */
  lemma SelfCheckedMeans(last: LastView, b: Block)
    ensures SelfChecked(last, b) <==>
              FinalVerdict(last.check, b, last.validators, last.valPerBlock) == Success && last.valPerBlock == last.valPerBlockAgain
  {
    hide SignersVerdict, AttestorRules, VotesValid;
    FinalizedIsStorageCheckPlusRules(last.check, b, last.validators, last.valPerBlock);
  }

  /** Both rounds with the attestors and the final self-checks, for a block the validator has signed. */
  ghost function RoundsOutcome(b: Block, attestors: seq<NodeId>, net: Network, last: LastView): Result<Block> {
    var patches := CollectPatches(b, attestors, net);
    if patches.Thrown? then Thrown("failed to attest by validator")
    else if exists j :: 0 <= j < |attestors| && net.attestSignatures(attestors[j], RequestFor(b, patches.value)).Thrown? then
      Thrown("failed to attest signatures")
    else if !SelfChecked(last, Assemble(b, patches.value)) then
      Thrown("self-validation failed")
    else Ok(Assemble(b, patches.value))
  }

  ghost function ProposalOutcome(env: NodeEnv, self: NodeId, txs: seq<Transaction>, randomMap: seq<NodeRandom>,
                                 net: Network, last: LastView): Result<Block>
  {
    var token := CreateAttestToken(env.random, self, randomMap);
    if token.Thrown? then Thrown("no attest token")
    else RoundsOutcome(SignedByValidator(self, UnsignedBlock(env.check.now, token.value.0, txs)), token.value.1, net, last)
  }

  lemma {:induction false} CollectedShape(b: Block, attestors: seq<NodeId>, net: Network)
    requires CollectPatches(b, attestors, net).Ok?
    ensures |CollectPatches(b, attestors, net).value| == |attestors|
    ensures AllComplete(CollectPatches(b, attestors, net).value, |b.txs|)
  {
    if attestors != [] {
      CollectedShape(b, attestors[..|attestors| - 1], net);
      var reply := net.attestBlock(attestors[|attestors| - 1], b).value;
      ColumnSerializable(b, reply);
    }
  }

  lemma {:induction false} CollectThrows(b: Block, attestors: seq<NodeId>, j: nat, net: Network)
    requires j <= |attestors|
    requires CollectPatches(b, attestors[..j], net).Thrown?
    ensures CollectPatches(b, attestors, net).Thrown?
    decreases |attestors| - j
  {
    if j == |attestors| {
      assert attestors[..j] == attestors;
    } else {
      assert attestors[..j + 1][..j] == attestors[..j];
      CollectThrows(b, attestors, j + 1, net);
    }
  }

  /** The block that a validator signs and sends out, when it has drawn a committee. */
  function SentBlock(env: NodeEnv, v: NodeId, txs: seq<Transaction>, token: Token): Block {
    SignedByValidator(v, UnsignedBlock(env.check.now, token, txs))
  }

  /** The replies of the first round: one patch per attestor, each of them recoverable. */
  lemma {:induction false} CollectedMeans(b: Block, attestors: seq<NodeId>, net: Network, patches: seq<Patch>)
    ensures CollectPatches(b, attestors, net) == Ok(patches) <==>
              && |patches| == |attestors|
              && forall j :: 0 <= j < |attestors| ==> net.attestBlock(attestors[j], b) == Ok(patches[j]) && RecoverPatch(b, patches[j]).Ok?
  {
    hide RecoverPatch;
    if attestors != [] {
      var k := |attestors| - 1;
      var front := if |patches| > k then patches[..k] else [];
      CollectedMeans(b, attestors[..k], net, front);
      if CollectPatches(b, attestors, net) == Ok(patches) {
        CollectedShape(b, attestors, net);
        assert patches[..k] + [patches[k]] == patches;
      } else if |patches| == k + 1 {
        assert patches == patches[..k] + [patches[k]];
      }
    }
  }

  /**
   Everything that has to happen for a block to be produced, from the answers of the network alone: the
   committee is drawn, every member of it gives a patch that can be recovered, every member accepts the
   request with all these patches, and the assembled block passes both checks.
   */
  ghost predicate Produces(env: NodeEnv, self: NodeId, txs: seq<Transaction>, randomMap: seq<NodeRandom>, net: Network,
                           last: LastView, attestors: seq<NodeId>, patches: seq<Patch>)
  {
    var b := SentBlock(env, self, txs, AttestToken(randomMap));
    var block := Assemble(b, patches);
    var request := AttestSignaturesRequest(HashOf(b), HashOf(block), patches);
    && CreateAttestToken(env.random, self, randomMap) == Ok((AttestToken(randomMap), attestors))
    && |patches| == |attestors|
    && (forall j :: 0 <= j < |attestors| ==> net.attestBlock(attestors[j], b) == Ok(patches[j]) && RecoverPatch(b, patches[j]).Ok?)
    && (forall j :: 0 <= j < |attestors| ==> net.attestSignatures(attestors[j], request).Ok?)
    && FinalVerdict(last.check, block, last.validators, last.valPerBlock) == Success
    && SNodeVerdict(block, last.validators, last.valPerBlockAgain) == Success
  }

  lemma ProposalExactly(env: NodeEnv, self: NodeId, txs: seq<Transaction>, randomMap: seq<NodeRandom>, net: Network, last: LastView)
    ensures ProposalOutcome(env, self, txs, randomMap, net, last).Ok? <==>
              exists attestors, patches :: Produces(env, self, txs, randomMap, net, last, attestors, patches)
    ensures forall attestors, patches :: Produces(env, self, txs, randomMap, net, last, attestors, patches) ==>
              ProposalOutcome(env, self, txs, randomMap, net, last)
              == Ok(Assemble(SentBlock(env, self, txs, AttestToken(randomMap)), patches))
  {
    hide CreateAttestToken, CollectPatches, RecoverPatch, FinalVerdict, SNodeVerdict, Assemble, SignedByValidator, UnsignedBlock;
    var outcome := ProposalOutcome(env, self, txs, randomMap, net, last);
    var b := SentBlock(env, self, txs, AttestToken(randomMap));
    var token := CreateAttestToken(env.random, self, randomMap);
    if outcome.Ok? {
      var (made, attestors) := token.value;
      AttestTokenMeans(env.random, made, self, randomMap, attestors, None);
      var patches := CollectPatches(b, attestors, net).value;
      CollectedMeans(b, attestors, net, patches);
      assert Produces(env, self, txs, randomMap, net, last, attestors, patches);
    }
    forall attestors, patches | Produces(env, self, txs, randomMap, net, last, attestors, patches)
      ensures outcome == Ok(Assemble(b, patches))
    {
      CollectedMeans(b, attestors, net, patches);
    }
  }

  // ---------------------------------------------------------------- attesting a block

  /** Every transaction must carry a token that leads to the validator of the block. */
  ghost predicate TokensLeadTo(env: RandomEnv, b: Block, validator: NodeId) {
    forall i :: 0 <= i < |b.txs| && b.txs[i].tx.Some? ==>
      CheckValidatorToken(env, b.txs[i].tx.value.apiToken, validator) == Ok(true)
  }

  /** The checks after which the block is remembered; a few more follow before it is signed. */
  ghost predicate Remembered(env: NodeEnv, b: Block) {
    && AttestorVerdict(env.check, b, ActiveValidators(env.random.contract)) == Success
    && TokensLeadTo(env.random, b, RecoverSigner(b, 0).value.value)
  }

  function VotesOn(env: CheckEnv, b: Block): (r: seq<VoteData>)
    ensures |r| == |b.txs|
  {
    seq(|b.txs|, i requires 0 <= i < |b.txs| =>
      Vote(if b.txs[i].tx.Some? && env.checkTx(b.txs[i].tx.value) then ACCEPTED else REJECTED))
  }

  ghost function Attestation(env: NodeEnv, self: NodeId, b: Block): Result<Patch> {
    if !Remembered(env, b) || |b.signers| != 1 then Thrown("not attested")
    else
      var votes := VotesOn(env.check, b);
      Ok(Patch(votes, Signature(self, WithColumn(b, votes))))
  }

  /**
   When an attestor signs, written out: one signature, which is that of an enabled validator node; no votes
   yet; transactions, sizes, age and token within its rules; and every transaction meant for this validator.
   */
  ghost predicate ProperlyAttested(env: NodeEnv, b: Block) {
    && |b.signers| == 1
    && (exists v :: ValidatorMayPropose(env, b, v))
    && (b.attestToken.AttestToken? || (b.attestToken.Text? && "AT1" <= b.attestToken.text && |b.attestToken.text| >= 4))
    && |b.txs| < env.check.maxTxs && TotalSize(b.txs) <= env.check.maxTotalSize
    && (env.check.maxAgeSeconds > 0 ==>
          b.ts - 1000 * env.check.maxAgeSeconds <= env.check.now <= b.ts + 1000 * env.check.maxAgeSeconds)
    && forall i :: 0 <= i < |b.txs| ==>
         && b.txs[i].tx.Some? && b.txs[i].tx.value.size <= env.check.maxTxSize && env.check.checkTx(b.txs[i].tx.value)
         && b.txs[i].validatorVote == Some(1) && b.txs[i].attestorVotes == []
  }

  ghost predicate ValidatorMayPropose(env: NodeEnv, b: Block, v: NodeId) {
    && v in env.random.contract.vnodes && env.random.contract.vnodes[v].isVNode && env.random.contract.vnodes[v].enabled
    && RecoverSigner(b, 0) == Ok(Some(v))
    && forall i :: 0 <= i < |b.txs| && b.txs[i].tx.Some? ==>
         CheckValidatorToken(env.random, b.txs[i].tx.value.apiToken, v) == Ok(true)
  }

  /** What is remembered, also when it is then not signed because it carries further signatures. */
  lemma RememberedExactly(env: NodeEnv, b: Block)
    ensures Remembered(env, b) <==>
              && AttestorVerdict(env.check, b, ActiveValidators(env.random.contract)) == Success
              && exists v :: ValidatorMayPropose(env, b, v)
  {
    hide RecoverSigner, CheckValidatorToken, AttestorRules;
    AttestorAccepts(env.check, b, ActiveValidators(env.random.contract));
    if Remembered(env, b) {
      assert ValidatorMayPropose(env, b, RecoverSigner(b, 0).value.value);
    }
  }

  lemma AttestationExactly(env: NodeEnv, self: NodeId, b: Block)
    ensures Attestation(env, self, b).Ok? <==> ProperlyAttested(env, b)
    ensures Attestation(env, self, b).Ok? ==>
              var p := Attestation(env, self, b).value;
              p.votes == seq(|b.txs|, _ => Vote(1)) && p.signer == Signature(self, WithColumn(b, p.votes))
  {
    hide RecoverSigner, CheckValidatorToken, TotalSize, AttestorRules;
    AttestorAccepts(env.check, b, ActiveValidators(env.random.contract));
    if Remembered(env, b) && |b.signers| == 1 {
      assert ValidatorMayPropose(env, b, RecoverSigner(b, 0).value.value);
    }
    if Attestation(env, self, b).Ok? {
      assert VotesOn(env.check, b) == seq(|b.txs|, _ => Vote(1));
    }
  }

  // ---------------------------------------------------------------- finalizing a block

  /** The address behind a patch, if there is one. */
  function PatchAddress(b: Block, p: Patch): Option<NodeId> {
    var r := RecoverPatch(b, p);
    if r.Ok? then r.value else None
  }

  /** Patch `j` comes from a registered node; all but the first also need the attest token to be usable. */
  ghost predicate PatchAccepted(env: NodeEnv, b: Block, patches: seq<Patch>, j: nat)
    requires j < |patches|
  {
    && PatchAddress(b, patches[j]).Some? && PatchAddress(b, patches[j]).value in env.random.contract.vnodes
    && (j > 0 ==> CheckAttestToken(env.random, PatchAddress(b, patches[0]), b.attestToken) == Ok(true))
  }

  /** What a list of patches has to satisfy before an attestor accepts the finalized block. */
  ghost predicate PatchesAccepted(env: NodeEnv, self: NodeId, b: Block, patches: seq<Patch>) {
    && (forall j :: 0 <= j < |patches| ==> PatchAccepted(env, b, patches, j))
    && (exists j :: 0 <= j < |patches| && PatchAddress(b, patches[j]) == Some(self))
  }

  ghost predicate AcceptedUpTo(env: NodeEnv, b: Block, patches: seq<Patch>, n: nat)
    requires n <= |patches|
  {
    n > 0 ==> PatchAccepted(env, b, patches, n - 1) && AcceptedUpTo(env, b, patches, n - 1)
  }

  ghost predicate OwnAmong(self: NodeId, b: Block, patches: seq<Patch>, n: nat)
    requires n <= |patches|
  {
    n > 0 && (PatchAddress(b, patches[n - 1]) == Some(self) || OwnAmong(self, b, patches, n - 1))
  }

  lemma {:induction false} UpToMeansAll(env: NodeEnv, self: NodeId, b: Block, patches: seq<Patch>, n: nat)
    requires n <= |patches|
    ensures AcceptedUpTo(env, b, patches, n) <==> forall j :: 0 <= j < n ==> PatchAccepted(env, b, patches, j)
    ensures OwnAmong(self, b, patches, n) <==> exists j :: 0 <= j < n && PatchAddress(b, patches[j]) == Some(self)
  {
    hide PatchAccepted, PatchAddress;
    if n > 0 {
      UpToMeansAll(env, self, b, patches, n - 1);
    }
  }

  ghost function FinalizedBlock(env: NodeEnv, self: NodeId, cache: map<BlockHash, Block>,
                                asr: AttestSignaturesRequest): Result<Block>
  {
    if asr.initialBlockHash !in cache then Thrown("cached block is missing")
    else
      var b := cache[asr.initialBlockHash];
      var contract := env.random.contract;
      if HashOf(b) != asr.initialBlockHash then Thrown("initial block hash does not match")
      else if !PatchesAccepted(env, self, b, asr.attestations) then Thrown("bad patches")
      else if FinalVerdict(env.check, Assemble(b, asr.attestations), contract.vnodes.Keys, contract.valPerBlock) != Success then
        Thrown("self-validation failed")
      else Ok(Assemble(b, asr.attestations))
  }

  /**
   When an attestor finalizes, written out: its cached copy has the requested hash, every patch is from a
   registered node and one from itself, the attest token is usable without the first of them if there are
   more, and the block with all patches passes the final check.
   */
  ghost predicate ProperlyFinalized(env: NodeEnv, self: NodeId, cache: map<BlockHash, Block>, asr: AttestSignaturesRequest) {
    && asr.initialBlockHash in cache && HashOf(cache[asr.initialBlockHash]) == asr.initialBlockHash
    && var b, patches, contract := cache[asr.initialBlockHash], asr.attestations, env.random.contract;
       && (forall j :: 0 <= j < |patches| ==> exists id :: id in contract.vnodes && RecoverPatch(b, patches[j]) == Ok(Some(id)))
       && (exists j :: 0 <= j < |patches| && RecoverPatch(b, patches[j]) == Ok(Some(self)))
       && (|patches| >= 2 ==>
             exists first :: RecoverPatch(b, patches[0]) == Ok(Some(first)) && CheckAttestToken(env.random, Some(first), b.attestToken) == Ok(true))
       && FinalVerdict(env.check, Assemble(b, patches), contract.vnodes.Keys, contract.valPerBlock) == Success
  }

  lemma FinalizationExactly(env: NodeEnv, self: NodeId, cache: map<BlockHash, Block>, asr: AttestSignaturesRequest)
    ensures FinalizedBlock(env, self, cache, asr).Ok? <==> ProperlyFinalized(env, self, cache, asr)
    ensures FinalizedBlock(env, self, cache, asr).Ok? ==>
              FinalizedBlock(env, self, cache, asr).value == Assemble(asr.initialBlockHash.block, asr.attestations)
  {
    hide RecoverPatch, CheckAttestToken, FinalVerdict, Assemble;
    if asr.initialBlockHash in cache {
      var b, patches := cache[asr.initialBlockHash], asr.attestations;
      if PatchesAccepted(env, self, b, patches) {
        forall j | 0 <= j < |patches| ensures exists id :: id in env.random.contract.vnodes && RecoverPatch(b, patches[j]) == Ok(Some(id)) {
          assert PatchAccepted(env, b, patches, j);
        }
        assert |patches| >= 2 ==> PatchAccepted(env, b, patches, 1);
      }
    }
  }

  // ---------------------------------------------------------------- the mempool

  function MempoolBytes(txs: seq<Transaction>): nat {
    if txs == [] then 0 else MempoolBytes(txs[..|txs| - 1]) + txs[|txs| - 1].size
  }

  predicate RoomFor(env: CheckEnv, txs: seq<Transaction>) {
    |txs| < env.maxTxs && MempoolBytes(txs) < env.maxTotalSize
  }

  // ---------------------------------------------------------------- the node

  /** Appends a patch to one block object beside another one that stays as it is. */
  method AppendBeside(block: BlockObj, kept: BlockObj, p: Patch)
    requires block.Valid() && kept.Valid() && Apart(block, kept)
    modifies block, block.txObjs
    ensures block.Valid() && block.txObjs == old(block.txObjs)
    ensures block.Value() == AppendPatch(old(block.Value()), p)
    ensures kept.Valid() && Apart(block, kept) && kept.Value() == old(kept.Value())
  {
    AppendPatchAsValidator(block, p);
    assert kept.txObjs == old(kept.txObjs);
    forall i | 0 <= i < |kept.txObjs| ensures kept.txObjs[i].Value() == old(kept.txObjs[i].Value()) {
      assert kept.txObjs[i] !in block.txObjs;
    }
  }

  class Node {
    const nodeId: NodeId
    var currentBlockTxs: seq<Transaction>
    var totalTransactionBytes: nat
    /** Blocks under attestation, by hash. */
    var cachedBlocks: map<BlockHash, Block>

    ghost predicate Valid()
      reads this
    {
      totalTransactionBytes == MempoolBytes(currentBlockTxs)
    }

    constructor (nodeId: NodeId)
      ensures Valid() && this.nodeId == nodeId && currentBlockTxs == [] && cachedBlocks == map[]
    {
      this.nodeId := nodeId;
      currentBlockTxs, totalTransactionBytes, cachedBlocks := [], 0, map[];
    }

    /** `sendTransaction` up to its only await; it changes nothing. */
    method SendTransactionBegin(env: NodeEnv, tx: Transaction, validatorTokenRequired: bool) returns (r: Result<()>)
      requires Valid()
      ensures r.Ok? <==>
                && RoomFor(env.check, currentBlockTxs)
                && tx.size <= env.check.maxTxSize
                && (validatorTokenRequired ==> CheckValidatorToken(env.random, tx.apiToken, nodeId) == Ok(true))
    {
      if |currentBlockTxs| >= env.check.maxTxs {
        return Thrown("block is full");
      }
      if totalTransactionBytes >= env.check.maxTotalSize {
        return Thrown("block is full");
      }
      if tx.size > env.check.maxTxSize {
        return Thrown("tx size is too big");
      }
      if validatorTokenRequired {
        var valid := CheckValidatorToken(env.random, tx.apiToken, nodeId);
        if valid.Thrown? || !valid.value {
          return Thrown("invalid apiToken");
        }
      }
      return Ok(());
    }

    /** `sendTransaction` after the await, with the outcome of the transaction check. */
    method SendTransactionEnd(env: NodeEnv, tx: Transaction) returns (r: Result<()>)
      requires Valid()
      modifies this`currentBlockTxs, this`totalTransactionBytes
      ensures Valid()
      ensures r.Ok? <==> env.check.checkTx(tx)
      ensures currentBlockTxs == if r.Ok? then old(currentBlockTxs) + [tx] else old(currentBlockTxs)
    {
      if !env.check.checkTx(tx) {
        return Thrown("transaction check failed");
      }
      ghost var was := currentBlockTxs;
      currentBlockTxs := currentBlockTxs + [tx];
      assert currentBlockTxs[..|currentBlockTxs| - 1] == was;
      totalTransactionBytes := totalTransactionBytes + tx.size;
      return Ok(());
    }

    /** Takes everything out of the mempool; this runs before the first await of `batchProcessBlock`. */
    method Drain() returns (cachedTxs: seq<Transaction>)
      requires Valid()
      modifies this`currentBlockTxs, this`totalTransactionBytes
      ensures Valid() && currentBlockTxs == []
      ensures cachedTxs == old(currentBlockTxs)
    {
      cachedTxs := currentBlockTxs;
      currentBlockTxs, totalTransactionBytes := [], 0;
    }

    /** `None` means that there was nothing to do. Whatever happens, the drained transactions are gone. */
    method BatchProcessBlock(env: NodeEnv, randomMap: seq<NodeRandom>, net: Network, last: LastView) returns (r: Result<Option<Block>>)
      requires Valid()
      modifies this`currentBlockTxs, this`totalTransactionBytes
      ensures Valid() && currentBlockTxs == []
      ensures old(currentBlockTxs) == [] ==> r == Ok(None)
      ensures old(currentBlockTxs) != [] ==>
                var outcome := ProposalOutcome(env, nodeId, old(currentBlockTxs), randomMap, net, last);
                (r.Ok? <==> outcome.Ok?) && (r.Ok? ==> r.value == Some(outcome.value))
      ensures old(currentBlockTxs) != [] ==>
                (r.Ok? <==> exists attestors, patches ::
                              Produces(env, nodeId, old(currentBlockTxs), randomMap, net, last, attestors, patches))
      ensures forall attestors, patches ::
                old(currentBlockTxs) != [] && Produces(env, nodeId, old(currentBlockTxs), randomMap, net, last, attestors, patches) ==>
                  r == Ok(Some(Assemble(SentBlock(env, nodeId, old(currentBlockTxs), AttestToken(randomMap)), patches)))
    {
      hide Produces;
      ProposalExactly(env, nodeId, currentBlockTxs, randomMap, net, last);
      if |currentBlockTxs| == 0 {
        return Ok(None);
      }
      var cachedTxs := Drain();
      var tokenObj := CreateAttestToken(env.random, nodeId, randomMap);
      if tokenObj.Thrown? {
        return Thrown("failed to create attest vector");
      }
      var attestVector := tokenObj.value.1;
      if |attestVector| == 0 {
        VectorShape(env.random, env.random.contract.valPerBlock - 1, randomMap, "attest", {nodeId});
        assert false;
      }
      var block := new BlockObj.Deserialize(UnsignedBlock(env.check.now, tokenObj.value.0, cachedTxs));
      var signed := SignBlockAsValidator(nodeId, block);
      var produced := RunRounds(block, attestVector, net, last);
      return if produced.Ok? then Ok(Some(produced.value)) else Thrown(produced.reason);
    }

    method RunRounds(block: BlockObj, attestVector: seq<NodeId>, net: Network, last: LastView) returns (r: Result<Block>)
      requires block.Valid()
      modifies block, block.txObjs
      ensures r.Ok? <==> RoundsOutcome(old(block.Value()), attestVector, net, last).Ok?
      ensures r.Ok? ==> r == RoundsOutcome(old(block.Value()), attestVector, net, last)
    {
      hide Assemble, CollectPatches, FinalVerdict, SNodeVerdict;
      ghost var b := block.Value();
      var blockSignedByV := new BlockObj.Deserialize(block.Value());
      var patches := RoundOne(block, blockSignedByV, attestVector, net);
      if patches.Thrown? {
        return Thrown("failed to attest by validator");
      }
      var asr := AttestSignaturesRequest(HashOf(blockSignedByV.Value()), HashOf(block.Value()), patches.value);
      assert asr == RequestFor(b, patches.value);
      var agreed := RoundTwo(asr, attestVector, net);
      if !agreed {
        return Thrown("failed to attest signatures");
      }
      var checkResult := CheckBlockFinalized(last.check, block, last.validators, last.valPerBlock);
      if checkResult != Success {
        return Thrown("failed to produce block");
      }
      var checkResultForSNode := CheckBlockAsSNode(block, last.validators, last.valPerBlockAgain);
      if checkResultForSNode != Success {
        return Thrown("failed to produce block");
      }
      return Ok(block.Value());
    }

    /** Sends all patches to every attestor; each of them has to accept. */
    method RoundTwo(asr: AttestSignaturesRequest, attestVector: seq<NodeId>, net: Network) returns (agreed: bool)
      ensures agreed <==> forall j :: 0 <= j < |attestVector| ==> net.attestSignatures(attestVector[j], asr).Ok?
    {
      for j := 0 to |attestVector|
        invariant forall k :: 0 <= k < j ==> net.attestSignatures(attestVector[k], asr).Ok?
      {
        if net.attestSignatures(attestVector[j], asr).Thrown? {
          return false;
        }
      }
      return true;
    }

    /** Asks every attestor for its patch, recovers the address behind it and appends it to the block. */
    method RoundOne(block: BlockObj, blockSignedByV: BlockObj, attestVector: seq<NodeId>, net: Network)
      returns (r: Result<seq<Patch>>)
      requires block.Valid() && blockSignedByV.Valid() && block.Value() == blockSignedByV.Value()
      requires Apart(block, blockSignedByV)
      modifies block, block.txObjs
      ensures block.Valid() && blockSignedByV.Value() == old(blockSignedByV.Value())
      ensures r.Ok? <==> CollectPatches(blockSignedByV.Value(), attestVector, net).Ok?
      ensures r.Ok? ==> r == CollectPatches(blockSignedByV.Value(), attestVector, net)
      ensures r.Ok? ==> block.Value() == Assemble(blockSignedByV.Value(), r.value)
    {
      ghost var b := blockSignedByV.Value();
      var patches: seq<Patch> := [];
      for j := 0 to |attestVector|
        invariant block.Valid() && block.txObjs == old(block.txObjs) && Apart(block, blockSignedByV)
        invariant blockSignedByV.Value() == b
        invariant CollectPatches(b, attestVector[..j], net) == Ok(patches)
        invariant block.Value() == Assemble(b, patches)
      {
        assert attestVector[..j + 1][..j] == attestVector[..j];
        var reply := net.attestBlock(attestVector[j], blockSignedByV.Value());
        if reply.Thrown? {
          CollectThrows(b, attestVector, j + 1, net);
          return Thrown("failed to attest by validator");
        }
        var nodeAddress := RecoverPatchAddress(blockSignedByV, reply.value);
        if nodeAddress.Thrown? {
          CollectThrows(b, attestVector, j + 1, net);
          return Thrown("cannot serialize");
        }
        AppendBeside(block, blockSignedByV, reply.value);
        assert (patches + [reply.value])[..|patches|] == patches;
        patches := patches + [reply.value];
      }
      assert attestVector[..|attestVector|] == attestVector;
      return Ok(patches);
    }

    method AttestBlock(env: NodeEnv, blockSignedByVBytes: Block) returns (r: Result<Patch>)
      modifies this`cachedBlocks
      ensures cachedBlocks == if Remembered(env, blockSignedByVBytes)
                              then old(cachedBlocks)[HashOf(blockSignedByVBytes) := blockSignedByVBytes]
                              else old(cachedBlocks)
      ensures r.Ok? <==> Attestation(env, nodeId, blockSignedByVBytes).Ok?
      ensures r.Ok? ==> r == Attestation(env, nodeId, blockSignedByVBytes)
      ensures r.Ok? <==> ProperlyAttested(env, blockSignedByVBytes)
      ensures var b := blockSignedByVBytes;
              cachedBlocks == if AttestorVerdict(env.check, b, ActiveValidators(env.random.contract)) == Success &&
                                 exists v :: ValidatorMayPropose(env, b, v)
                              then old(cachedBlocks)[HashOf(b) := b] else old(cachedBlocks)
    {
      hide ProperlyAttested, ValidatorMayPropose;
      AttestationExactly(env, nodeId, blockSignedByVBytes);
      RememberedExactly(env, blockSignedByVBytes);
      hide CheckValidatorToken, VotesOn, WithColumn, ActiveValidators;
      var activeValidators := ActiveValidators(env.random.contract);
      var blockSignedByV := new BlockObj.Deserialize(blockSignedByVBytes);
      var check1 := CheckBlockAsAttestor(env.check, blockSignedByV, activeValidators);
      if check1 != Success {
        return Thrown("attestor check failed");
      }
      var blockValidatorNodeId := RecoverSignerAddress(blockSignedByV, 0);
      forall i | 0 <= i < |blockSignedByV.txObjs| ensures blockSignedByV.txObjs[i].tx.Some? {
        assert GoodTx(env.check, blockSignedByVBytes.txs[i]);
        assert blockSignedByV.txObjs[i].Value() == blockSignedByVBytes.txs[i];
      }
      var tokensValid := CheckTokens(env, blockSignedByV, blockValidatorNodeId.value.value);
      if !tokensValid {
        return Thrown("invalid validator for transaction");
      }
      cachedBlocks := cachedBlocks[HashOf(blockSignedByVBytes) := blockSignedByVBytes];
      if |blockSignedByV.signers| != 1 {
        return Thrown("1 signer");
      }
      r := VoteAndSign(env, blockSignedByV);
    }

    method CheckTokens(env: NodeEnv, blockSignedByV: BlockObj, blockValidatorNodeId: NodeId) returns (ok: bool)
      requires blockSignedByV.Valid() && forall i :: 0 <= i < |blockSignedByV.txObjs| ==> blockSignedByV.txObjs[i].tx.Some?
      ensures ok <==> TokensLeadTo(env.random, blockSignedByV.Value(), blockValidatorNodeId)
    {
      hide CheckValidatorToken;
      ghost var b := blockSignedByV.Value();
      for i := 0 to |blockSignedByV.txObjs|
        invariant forall k :: 0 <= k < i ==>
                    CheckValidatorToken(env.random, b.txs[k].tx.value.apiToken, blockValidatorNodeId) == Ok(true)
      {
        assert blockSignedByV.txObjs[i].Value() == b.txs[i];
        var valid := CheckValidatorToken(env.random, blockSignedByV.txObjs[i].tx.value.apiToken, blockValidatorNodeId);
        if valid.Thrown? || !valid.value {
          return false;
        }
      }
      return true;
    }

    method VoteAndSign(env: NodeEnv, blockSignedByV: BlockObj) returns (r: Result<Patch>)
      requires blockSignedByV.Valid()
      modifies blockSignedByV, blockSignedByV.txObjs
      ensures var b := old(blockSignedByV.Value());
              r == Ok(Patch(VotesOn(env.check, b), Signature(nodeId, WithColumn(b, VotesOn(env.check, b)))))
    {
      ghost var b := blockSignedByV.Value();
      var objs := blockSignedByV.txObjs;
      var votes: seq<VoteData> := [];
      for i := 0 to |objs|
        invariant blockSignedByV.txObjs == objs == old(blockSignedByV.txObjs)
        invariant blockSignedByV.ts == b.ts && blockSignedByV.attestToken == b.attestToken && blockSignedByV.signers == b.signers
        invariant votes == VotesOn(env.check, b)[..i]
        invariant forall k :: 0 <= k < i ==> objs[k].Value() == b.txs[k].(attestorVotes := [VotesOn(env.check, b)[k]])
        invariant forall k :: i <= k < |objs| ==> objs[k].Value() == b.txs[k]
      {
        assert objs[i].Value() == b.txs[i];
        var vote := Vote(if objs[i].tx.Some? && env.check.checkTx(objs[i].tx.value) then ACCEPTED else REJECTED);
        votes := votes + [vote];
        objs[i].attestorVotes := [vote];
      }
      assert votes == VotesOn(env.check, b);
      assert blockSignedByV.Value() == WithColumn(b, votes);
      return Ok(Patch(votes, Signature(nodeId, blockSignedByV.Value())));
    }

    method AttestSignatures(env: NodeEnv, asr: AttestSignaturesRequest) returns (r: Result<Block>)
      ensures r.Ok? <==> FinalizedBlock(env, nodeId, cachedBlocks, asr).Ok?
      ensures r.Ok? ==> r == FinalizedBlock(env, nodeId, cachedBlocks, asr)
      ensures r.Ok? <==> ProperlyFinalized(env, nodeId, cachedBlocks, asr)
    {
      hide ProperlyFinalized;
      FinalizationExactly(env, nodeId, cachedBlocks, asr);
      if asr.initialBlockHash !in cachedBlocks {
        return Thrown("cached block is missing");
      }
      var blockBytes := cachedBlocks[asr.initialBlockHash];
      if HashOf(blockBytes) != asr.initialBlockHash {
        return Thrown("initial block hash does not match the expected hash");
      }
      var blockSignedByVA := new BlockObj.Deserialize(blockBytes);
      var contract := env.random.contract;
      var accepted := ReplayPatches(env, blockBytes, blockSignedByVA, asr.attestations);
      if !accepted {
        return Thrown("bad patches");
      }
      var checkResult := CheckBlockFinalized(env.check, blockSignedByVA, contract.vnodes.Keys, contract.valPerBlock);
      if checkResult != Success {
        return Thrown("failed to produce block");
      }
      return Ok(blockSignedByVA.Value());
    }

    /** Rebuilds the validator's block from the cached copy, taking the patches only if all of them are acceptable. */
    method ReplayPatches(env: NodeEnv, blockBytes: Block, blockSignedByVA: BlockObj, patches: seq<Patch>)
      returns (accepted: bool)
      requires blockSignedByVA.Valid() && blockSignedByVA.Value() == blockBytes
      modifies blockSignedByVA, blockSignedByVA.txObjs
      ensures blockSignedByVA.Valid()
      ensures accepted <==> PatchesAccepted(env, nodeId, blockBytes, patches)
      ensures accepted ==> blockSignedByVA.Value() == Assemble(blockBytes, patches)
    {
      hide PatchAccepted, PatchAddress;
      var blockSignedByV := new BlockObj.Deserialize(blockBytes);
      ghost var objs := blockSignedByVA.txObjs;
      var gotOwnSignature := false;
      var vNodeId: Option<NodeId> := None;
      for sigIndex := 0 to |patches|
        invariant blockSignedByVA.txObjs == objs && Apart(blockSignedByVA, blockSignedByV)
        invariant blockSignedByV.Valid() && blockSignedByV.Value() == blockBytes
        invariant blockSignedByVA.Valid() && blockSignedByVA.Value() == Assemble(blockBytes, patches[..sigIndex])
        invariant AcceptedUpTo(env, blockBytes, patches, sigIndex)
        invariant gotOwnSignature == OwnAmong(nodeId, blockBytes, patches, sigIndex)
        invariant sigIndex > 0 ==> vNodeId == PatchAddress(blockBytes, patches[0])
      {
        assert patches[..sigIndex + 1][..sigIndex] == patches[..sigIndex];
        var id := ReplayPatch(env, blockSignedByV, blockSignedByVA, vNodeId, patches, sigIndex);
        if id.None? {
          return false;
        }
        vNodeId := if sigIndex == 0 then id else vNodeId;
        gotOwnSignature := gotOwnSignature || id.value == nodeId;
      }
      assert patches[..|patches|] == patches;
      UpToMeansAll(env, nodeId, blockBytes, patches, |patches|);
      return gotOwnSignature;
    }

    /** One patch: checked against the block the validator signed, then appended to the one being rebuilt. */
    method ReplayPatch(env: NodeEnv, blockSignedByV: BlockObj, blockSignedByVA: BlockObj, vNodeId: Option<NodeId>,
                       patches: seq<Patch>, sigIndex: nat)
      returns (id: Option<NodeId>)
      requires blockSignedByV.Valid() && blockSignedByVA.Valid() && Apart(blockSignedByVA, blockSignedByV)
      requires sigIndex < |patches|
      requires sigIndex > 0 ==> vNodeId == PatchAddress(blockSignedByV.Value(), patches[0])
      modifies blockSignedByVA, blockSignedByVA.txObjs
      ensures blockSignedByV.Valid() && blockSignedByVA.Valid() && Apart(blockSignedByVA, blockSignedByV)
      ensures blockSignedByVA.txObjs == old(blockSignedByVA.txObjs)
      ensures blockSignedByV.Value() == old(blockSignedByV.Value())
      ensures id.Some? <==> PatchAccepted(env, blockSignedByV.Value(), patches, sigIndex)
      ensures id.Some? ==> PatchAddress(blockSignedByV.Value(), patches[sigIndex]) == id
      ensures id.Some? ==> blockSignedByVA.Value() == AppendPatch(old(blockSignedByVA.Value()), patches[sigIndex])
    {
      id := AcceptPatch(env, blockSignedByV, vNodeId, patches, sigIndex);
      if id.Some? {
        AppendBeside(blockSignedByVA, blockSignedByV, patches[sigIndex]);
      }
    }

    /** The registered node behind a patch; `None` stands for the exceptions of the checks. */
    method AcceptPatch(env: NodeEnv, blockSignedByV: BlockObj, vNodeId: Option<NodeId>, patches: seq<Patch>, sigIndex: nat)
      returns (id: Option<NodeId>)
      requires blockSignedByV.Valid() && sigIndex < |patches|
      requires sigIndex > 0 ==> vNodeId == PatchAddress(blockSignedByV.Value(), patches[0])
      ensures id.Some? <==> PatchAccepted(env, blockSignedByV.Value(), patches, sigIndex)
      ensures id.Some? ==> PatchAddress(blockSignedByV.Value(), patches[sigIndex]) == id
    {
      var recovered := RecoverPatchAddress(blockSignedByV, patches[sigIndex]);
      if recovered.Thrown? || recovered.value.None? || recovered.value.value !in env.random.contract.vnodes {
        return None;
      }
      if sigIndex != 0 && CheckAttestToken(env.random, vNodeId, blockSignedByV.attestToken) != Ok(true) {
        return None;
      }
      return recovered.value;
    }
  }
}
