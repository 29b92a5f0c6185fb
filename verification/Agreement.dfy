/** What the attestation protocol guarantees about finalized blocks, and where its guarantees end. */
module Agreement {
  import opened Prelude
  import opened ValidatorRandom
  import opened BlockPb
  import opened BlockUtil
  import opened BlockAssembly
  import opened ValidatorNode
  import opened HonestRun
  import opened AttestationRun

  // ---------------------------------------------------------------- the validator and its attestors

  /**
   When `batchProcessBlock` returns a block, every attestor that finalizes on the request it sent has
   finalized that same block, whatever else happened in the run.
   */
  lemma ProducedBlockIsFinalized(env: NodeEnv, v: NodeId, txs: seq<Transaction>, randomMap: seq<NodeRandom>, net: Network,
                                 last: LastView, honest: set<NodeId>, events: seq<Event>, a: NodeId, f: Finalized)
    requires ProposalOutcome(env, v, txs, randomMap, net, last).Ok?
    requires a in honest && a in Run(Init(honest), events) && f in Run(Init(honest), events)[a].finalized
    requires var token := CreateAttestToken(env.random, v, randomMap).value;
             var b := SentBlock(env, v, txs, token.0);
             f.request == RequestFor(b, CollectPatches(b, token.1, net).value)
    ensures Ok(f.block) == ProposalOutcome(env, v, txs, randomMap, net, last)
  {
    hide FinalVerdict, SelfChecked, PatchesAccepted, Assemble, AllGenuine, CollectPatches, CreateAttestToken, OnlyValidatorSigned;
    var sys := Run(Init(honest), events);
    RunSound(honest, events);
    assert NodeSound(sys, a, sys[a]);
    var i :| 0 <= i < |sys[a].finalized| && sys[a].finalized[i] == f;
    assert FinalizationSound(sys, a, sys[a].finalized[i]);
  }

  // ---------------------------------------------------------------- the same patches in another order

  lemma RunSnoc(sys: System, events: seq<Event>, e: Event)
    ensures Run(sys, events + [e]) == Step(Run(sys, events), e)
  {
    assert (events + [e])[..|events|] == events;
  }

  /** Node `a` has the block in its cache and has attested it. */
  ghost predicate Prepared(sys: System, a: NodeId, b: Block) {
    && a in sys && HashOf(b) in sys[a].cache && sys[a].cache[HashOf(b)] == b
    && Genuine(sys, HonestPatch(a, b).signer)
  }

  lemma AgreesWithItself(env: NodeEnv, v: NodeId, txs: seq<Transaction>, randomMap: seq<NodeRandom>)
    ensures Agree(env, env, Proposed(env, v, txs, randomMap))
  {}

  lemma AttestPrepares(sys: System, env: NodeEnv, v: NodeId, a: NodeId, txs: seq<Transaction>, randomMap: seq<NodeRandom>)
    requires Admitted(env, v, txs) && Fits(env.check, txs) && v in ActiveValidators(env.random.contract)
    requires a in sys && AllGenuine(sys, Proposed(env, v, txs, randomMap).signers)
    ensures var b := Proposed(env, v, txs, randomMap);
            var later := Step(sys, Attest(a, env, b));
            && Later(sys, later) && Prepared(later, a, b) && AllGenuine(later, b.signers)
            && forall c :: c in sys && c != a ==> later[c] == sys[c]
  {
    hide Remembered, AttestorVerdict, Proposed, Agree, Admitted, WithColumn, AllGenuine;
    var b := Proposed(env, v, txs, randomMap);
    AgreesWithItself(env, v, txs, randomMap);
    HonestAttestation(env, env, v, a, txs, randomMap);
    var e := Attest(a, env, b);
    var later := Step(sys, e);
    StepExtends(sys, e);
    StaysGenuine(sys, later, b.signers);
    assert Attestation(env, a, b) == Ok(HonestPatch(a, b));
    var node := later[a];
    assert node.attested[|node.attested| - 1] == Attested(env, b, HonestPatch(a, b).votes);
    assert AttestorSignature(a, node.attested[|node.attested| - 1]) == HonestPatch(a, b).signer;
  }

  lemma FinalizeSucceeds(sys: System, env: NodeEnv, v: NodeId, attestors: seq<NodeId>, txs: seq<Transaction>,
                         randomMap: seq<NodeRandom>)
    requires Admitted(env, v, txs) && Fits(env.check, txs)
    requires Online(env.random, v, randomMap) && CommitteeAvailable(env.random, randomMap)
    requires 1 <= |attestors| == env.random.contract.valPerBlock - 1
    requires forall id :: id in [v] + attestors ==> id in env.random.contract.vnodes && id in Ids(Good(env.random, randomMap))
    requires forall j :: 0 <= j < |attestors| ==> Prepared(sys, attestors[j], Proposed(env, v, txs, randomMap))
    ensures var b := Proposed(env, v, txs, randomMap);
            var request := RequestFor(b, HonestPatches(attestors, b));
            var later := Step(sys, Event.Finalize(attestors[0], env, request));
            && Later(sys, later) && attestors[0] in later
            && Finalized(env, request, Assemble(b, HonestPatches(attestors, b))) in later[attestors[0]].finalized
            && (forall c :: c in sys && c != attestors[0] ==> later[c] == sys[c])
            && later[attestors[0]].cache == sys[attestors[0]].cache
  {
    hide HonestPatch, Proposed, Assemble, Agree, Admitted, FinalizedBlock, Online, Good;
    var b := Proposed(env, v, txs, randomMap);
    AgreesWithItself(env, v, txs, randomMap);
    assert Prepared(sys, attestors[0], b);
    HonestRoundTwo(env, env, v, 0, txs, randomMap, attestors, sys[attestors[0]].cache);
    StepExtends(sys, Event.Finalize(attestors[0], env, RequestFor(b, HonestPatches(attestors, b))));
    forall j | 0 <= j < |attestors| ensures Genuine(sys, HonestPatches(attestors, b)[j].signer) {
      assert Prepared(sys, attestors[j], b);
    }
  }

  /** A validator and two attestors that are honest, online and registered, and a batch that fits. */
  ghost predicate ThreeHonestSigners(env: NodeEnv, v: NodeId, a: NodeId, c: NodeId, txs: seq<Transaction>, randomMap: seq<NodeRandom>) {
    && Admitted(env, v, txs) && Fits(env.check, txs) && v in ActiveValidators(env.random.contract)
    && Online(env.random, v, randomMap) && CommitteeAvailable(env.random, randomMap)
    && env.random.contract.valPerBlock == 3
    && v != a && v != c && a != c
    && forall id :: id in [v, a, c] ==> id in env.random.contract.vnodes && id in Ids(Good(env.random, randomMap))
  }

  /** The honest validator proposes, both attestors attest. */
  lemma BothAttest(env: NodeEnv, v: NodeId, a: NodeId, c: NodeId, txs: seq<Transaction>, randomMap: seq<NodeRandom>)
    returns (events: seq<Event>)
    requires ThreeHonestSigners(env, v, a, c, txs, randomMap)
    ensures var sys, b := Run(Init({v, a, c}), events), Proposed(env, v, txs, randomMap);
            Prepared(sys, a, b) && Prepared(sys, c, b)
  {
    hide SignedByValidator, AllGenuine, Attestation, Remembered, Admitted, Online, Good;
    var b := Proposed(env, v, txs, randomMap);
    var start := Init({v, a, c});
    var propose := Propose(v, UnsignedBlock(env.check.now, AttestToken(randomMap), txs));
    var s1 := Step(start, propose);
    assert s1[v].proposed == [b];
    assert AllGenuine(s1, b.signers) by { ProposedIsGenuine(s1, env, v, txs, randomMap); }
    AttestPrepares(s1, env, v, a, txs, randomMap);
    var s2 := Step(s1, Attest(a, env, b));
    AttestPrepares(s2, env, v, c, txs, randomMap);
    var s3 := Step(s2, Attest(c, env, b));
    assert s3[a] == s2[a];
    assert Genuine(s3, HonestPatch(a, b).signer) by { PreparedStays(s2, s3, a, b); }
    assert Run(start, []) == start;
    RunSnoc(start, [], propose);
    RunSnoc(start, [propose], Attest(a, env, b));
    RunSnoc(start, [propose, Attest(a, env, b)], Attest(c, env, b));
    assert [] + [propose] == [propose];
    assert [propose] + [Attest(a, env, b)] == [propose, Attest(a, env, b)];
    events := [propose, Attest(a, env, b)] + [Attest(c, env, b)];
  }

  lemma ProposedIsGenuine(sys: System, env: NodeEnv, v: NodeId, txs: seq<Transaction>, randomMap: seq<NodeRandom>)
    requires v in sys && sys[v].proposed == [Proposed(env, v, txs, randomMap)]
    ensures AllGenuine(sys, Proposed(env, v, txs, randomMap).signers)
  {
    var b := Proposed(env, v, txs, randomMap);
    assert sys[v].proposed[0].signers == [b.signers[0]];
  }

  lemma PreparedStays(sys: System, later: System, a: NodeId, b: Block)
    requires Later(sys, later) && Prepared(sys, a, b)
    ensures Genuine(later, HonestPatch(a, b).signer)
  {
    StaysGenuine(sys, later, [HonestPatch(a, b).signer]);
    assert [HonestPatch(a, b).signer][0] == HonestPatch(a, b).signer;
  }

  /**
   Agreement ends where the order of the patches is not fixed. The validator and both attestors are honest
   and do everything once; whoever relays the patches to the second attestor swaps them. Both attestors
   finalize, from the same initial block and the same two patches, and their blocks differ: nobody compares
   the result with the hash in the request.
   */
  lemma SwappedPatchesSplit(env: NodeEnv, v: NodeId, a: NodeId, c: NodeId, txs: seq<Transaction>, randomMap: seq<NodeRandom>)
    returns (events: seq<Event>, f: Finalized, g: Finalized)
    requires ThreeHonestSigners(env, v, a, c, txs, randomMap)
    ensures var sys := Run(Init({v, a, c}), events);
            a in sys && c in sys && f in sys[a].finalized && g in sys[c].finalized
    ensures f.request.initialBlockHash == g.request.initialBlockHash
    ensures |f.request.attestations| == 2
    ensures g.request.attestations == [f.request.attestations[1], f.request.attestations[0]]
    ensures f.block != g.block
  {
    hide Proposed, Assemble, Admitted, Online, Good, HonestPatch, Genuine, FinalizedBlock;
    var b := Proposed(env, v, txs, randomMap);
    var start := Init({v, a, c});
    var front := BothAttest(env, v, a, c, txs, randomMap);
    var s := Run(start, front);
    var first := Event.Finalize(a, env, RequestFor(b, HonestPatches([a, c], b)));
    var second := Event.Finalize(c, env, RequestFor(b, HonestPatches([c, a], b)));
    FinalizeSucceeds(s, env, v, [a, c], txs, randomMap);
    var t := Step(s, first);
    PreparedStays(s, t, a, b);
    PreparedStays(s, t, c, b);
    FinalizeSucceeds(t, env, v, [c, a], txs, randomMap);
    RunSnoc(start, front, first);
    RunSnoc(start, front + [first], second);
    events := front + [first] + [second];
    f := Finalized(env, first.request, Assemble(b, HonestPatches([a, c], b)));
    g := Finalized(env, second.request, Assemble(b, HonestPatches([c, a], b)));
    FinalizedStays(t, Step(t, second), a, f);
    PatchesDiffer(env, v, a, c, txs, randomMap);
    assert HonestPatches([c, a], b) == [HonestPatches([a, c], b)[1], HonestPatches([a, c], b)[0]];
  }

  lemma FinalizedStays(sys: System, later: System, a: NodeId, f: Finalized)
    requires Later(sys, later) && a in sys && f in sys[a].finalized
    ensures a in later && f in later[a].finalized
  {
    var i :| 0 <= i < |sys[a].finalized| && sys[a].finalized[i] == f;
    assert later[a].finalized[i] == f;
  }

  lemma PatchesDiffer(env: NodeEnv, v: NodeId, a: NodeId, c: NodeId, txs: seq<Transaction>, randomMap: seq<NodeRandom>)
    requires a != c
    ensures var b := Proposed(env, v, txs, randomMap);
            Assemble(b, HonestPatches([a, c], b)) != Assemble(b, HonestPatches([c, a], b))
  {
    hide Assemble, Proposed;
    var b := Proposed(env, v, txs, randomMap);
    ProposedFacts(env, v, txs, randomMap);
    AssembleInjective(b, HonestPatches([a, c], b), b, HonestPatches([c, a], b));
    assert Trim(HonestPatches([a, c], b)[0], |b.txs|).signer.signer == a;
    assert Trim(HonestPatches([c, a], b)[0], |b.txs|).signer.signer == c;
  }

  function ThreeEnv(): NodeEnv {
    var info := NodeInfo("http://node", true, true);
    var zeros: Digest := seq(64, _ => 0);
    NodeEnv(CheckEnv(10, 10, 10, 0, 0, tx => true),
            RandomEnv(ContractState(map["a" := info, "b" := info, "c" := info], 3, 0), 0, true, (seed, input) => zeros))
  }

  function ThreeOnline(): seq<NodeRandom> {
    [OnlineNode("a"), OnlineNode("b"), OnlineNode("c")]
  }

  lemma ThreeUsable()
    ensures Good(ThreeEnv().random, ThreeOnline()) == ThreeOnline()
    ensures Ids(ThreeOnline()) == ["a", "b", "c"]
  {
    AllGood(ThreeEnv().random, ThreeOnline());
  }

  /** A client token leads to one of the three. */
  lemma TokenForOne() returns (v: NodeId)
    ensures v in ["a", "b", "c"]
    ensures CheckValidatorToken(ThreeEnv().random, ValidatorToken(ThreeOnline()), v) == Ok(true)
  {
    hide SelectCommittee, RandomsById, Good;
    var ids := ["a", "b", "c"];
    var random := ThreeEnv().random;
    ThreeUsable();
    RandomsByIdKeys(ThreeOnline());
    DistinctIffFull(ids);
    assert Elems(ids) - {} == Elems(ids) && Elems(ids) * {} == {};
    CommitteeExact(ids, RandomsById(ThreeOnline()), 1, "client", {}, random.sha512);
    var vector := SelectCommittee(ids, RandomsById(ThreeOnline()), 1, "client", {}, random.sha512).value;
    v := vector[0];
    assert v in vector;
  }

  /** Three nodes that are registered and online, and one transaction with a token for one of them. */
  lemma ThreeNodes() returns (env: NodeEnv, v: NodeId, a: NodeId, c: NodeId, txs: seq<Transaction>, randomMap: seq<NodeRandom>)
    ensures ThreeHonestSigners(env, v, a, c, txs, randomMap) && |txs| == 1
  {
    hide CheckValidatorToken, Good;
    env, randomMap := ThreeEnv(), ThreeOnline();
    v := TokenForOne();
    ThreeUsable();
    a, c := if v == "a" then "b" else "a", if v == "c" then "b" else "c";
    var tx := Transaction("CUSTOM:TEXT", "", [], ValidatorToken(randomMap), "", 1);
    txs := [tx];
    assert MempoolBytes(txs) == MempoolBytes([]) + 1;
    assert Ids(randomMap)[0] == "a" && Ids(randomMap)[1] == "b" && Ids(randomMap)[2] == "c";
  }

  function OnlineNode(id: NodeId): NodeRandom {
    NodeRandom(id, 0, [0], true, true)
  }

  lemma {:induction false} AllGood(env: RandomEnv, nodes: seq<NodeRandom>)
    requires forall i :: 0 <= i < |nodes| ==> GoodNode(env, nodes[i])
    ensures Good(env, nodes) == nodes
  {
    if nodes != [] {
      AllGood(env, nodes[..|nodes| - 1]);
    }
  }

  /** So there is a run of honest nodes in which two of them finalize different blocks for the same proposal. */
  lemma AgreementNeedsOneOrder() returns (honest: set<NodeId>, events: seq<Event>, a: NodeId, c: NodeId, f: Finalized, g: Finalized)
    ensures var sys := Run(Init(honest), events);
            a in sys && c in sys && f in sys[a].finalized && g in sys[c].finalized
    ensures f.request.initialBlockHash == g.request.initialBlockHash && f.block != g.block
    ensures |f.request.attestations| == 2
    ensures g.request.attestations == [f.request.attestations[1], f.request.attestations[0]]
  {
    hide ThreeHonestSigners;
    var env, v, x, y, txs, randomMap := ThreeNodes();
    events, f, g := SwappedPatchesSplit(env, v, x, y, txs, randomMap);
    honest, a, c := {v, x, y}, x, y;
  }

  // ---------------------------------------------------------------- how many signers

  /**
   A finalized block has as many signatures as the contract asks for, but they may be those of two nodes:
   an attestor whose patch fills every slot finalizes the block, all checks accept it, and every index but
   the first recovers to that attestor. If the attestor is the validator itself, it is the only signer.
   */
  lemma OneAttestorFillsEverySlot(env: NodeEnv, other: NodeEnv, v: NodeId, a: NodeId, txs: seq<Transaction>,
                                  randomMap: seq<NodeRandom>, cache: map<BlockHash, Block>)
    requires Admitted(env, v, txs) && Fits(env.check, txs)
    requires Agree(env, other, Proposed(env, v, txs, randomMap))
    requires Online(env.random, v, randomMap) && CommitteeAvailable(env.random, randomMap)
    requires forall id :: id in [v, a] ==> id in env.random.contract.vnodes && id in Ids(Good(env.random, randomMap))
    requires var b := Proposed(env, v, txs, randomMap); HashOf(b) in cache && cache[HashOf(b)] == b
    ensures var b, contract := Proposed(env, v, txs, randomMap), other.random.contract;
            var patches := seq(env.random.contract.valPerBlock - 1, _ => HonestPatch(a, b));
            var block := Assemble(b, patches);
            && FinalizedBlock(other, a, cache, RequestFor(b, patches)) == Ok(block)
            && FinalVerdict(other.check, block, contract.vnodes.Keys, contract.valPerBlock) == Success
            && SNodeVerdict(block, contract.vnodes.Keys, contract.valPerBlock) == Success
            && |block.signers| == contract.valPerBlock && RecoverSigner(block, 0) == Ok(Some(v))
            && forall k :: 1 <= k < |block.signers| ==> RecoverSigner(block, k) == Ok(Some(a))
  {
    hide Assemble, Proposed, HonestPatch, Agree, Admitted, FinalizedBlock, FinalVerdict, SNodeVerdict, RecoverSigner, Good;
    var b, contract := Proposed(env, v, txs, randomMap), other.random.contract;
    var attestors := seq(env.random.contract.valPerBlock - 1, _ => a);
    var patches := seq(env.random.contract.valPerBlock - 1, _ => HonestPatch(a, b));
    assert HonestPatches(attestors, b) == patches;
    forall id | id in [v] + attestors ensures id in [v, a] {}
    AgreeOnContract(env, other, b);
    ProposedFacts(env, v, txs, randomMap);
    HonestRoundTwo(env, other, v, 0, txs, randomMap, attestors, cache);
    HonestFinal(env, other, v, txs, randomMap, attestors);
    FinalizedShape(other.check, Assemble(b, patches), contract.vnodes.Keys, contract.valPerBlock);
    forall k | 0 <= k < contract.valPerBlock ensures RecoverSigner(Assemble(b, patches), k) == Ok(Some(if k == 0 then v else a)) {
      HonestSigners(b, v, attestors, k);
      assert ([v] + attestors)[k] == if k == 0 then v else a;
    }
  }
}
