/**
 All runs of the attestation protocol. Honest nodes propose, attest and finalize in any order and any
 number of times, their cached copies may expire, and contracts, clocks and rules may change between
 any two steps. Everybody else may send anything, but cannot forge the signature of an honest node.
 */
module AttestationRun {
  import opened Prelude
  import opened ValidatorRandom
  import opened BlockPb
  import opened BlockUtil
  import opened BlockAssembly
  import opened ValidatorNode

  datatype Attested = Attested(env: NodeEnv, block: Block, votes: seq<VoteData>)
  datatype Requested = Requested(request: AttestSignaturesRequest, block: Block)
  datatype Finalized = Finalized(env: NodeEnv, request: AttestSignaturesRequest, block: Block)

  /** What an honest node remembers: the cached copies, and logs of all it has done. */
  datatype NodeState = NodeState(
    cache: map<BlockHash, Block>,
    proposed: seq<Block>, attested: seq<Attested>, requested: seq<Requested>, finalized: seq<Finalized>)

  type System = map<NodeId, NodeState>

  const FRESH_NODE := NodeState(map[], [], [], [], [])

  function Init(honest: set<NodeId>): System {
    map n | n in honest :: FRESH_NODE
  }

  // ---------------------------------------------------------------- signatures of honest nodes

  ghost predicate SignedAsValidator(node: NodeState, sig: Signature) {
    exists i :: 0 <= i < |node.proposed| && node.proposed[i].signers == [sig]
  }

  function AttestorSignature(n: NodeId, a: Attested): Signature {
    Signature(n, WithColumn(a.block, a.votes))
  }

  ghost predicate SignedAsAttestor(n: NodeId, node: NodeState, sig: Signature) {
    exists i :: 0 <= i < |node.attested| && AttestorSignature(n, node.attested[i]) == sig
  }

  /** A signature that can occur in a message: nobody signs in the name of an honest node but that node. */
  ghost predicate Genuine(sys: System, sig: Signature) {
    sig.Signature? && sig.signer in sys ==>
      SignedAsValidator(sys[sig.signer], sig) || SignedAsAttestor(sig.signer, sys[sig.signer], sig)
  }

  ghost predicate AllGenuine(sys: System, sigs: seq<Signature>) {
    forall i :: 0 <= i < |sigs| ==> Genuine(sys, sigs[i])
  }

  ghost predicate PatchesGenuine(sys: System, patches: seq<Patch>) {
    forall i :: 0 <= i < |patches| ==> Genuine(sys, patches[i].signer)
  }

  // ---------------------------------------------------------------- steps

  datatype Event =
    | Propose(n: NodeId, unsigned: Block)
    | Attest(n: NodeId, env: NodeEnv, block: Block)
    | Request(n: NodeId, block: Block, patches: seq<Patch>)
    | Finalize(n: NodeId, env: NodeEnv, request: AttestSignaturesRequest)
    | Expire(n: NodeId, hash: BlockHash)

  /** The event can happen: its node is honest, and its messages carry only signatures that exist. */
  ghost predicate Possible(sys: System, e: Event) {
    e.n in sys &&
    match e
    case Propose(_, unsigned) => unsigned.signers == []
    case Attest(_, _, block) => AllGenuine(sys, block.signers)
    case Request(n, block, patches) => block in sys[n].proposed && PatchesGenuine(sys, patches)
    case Finalize(_, _, request) => PatchesGenuine(sys, request.attestations)
    case Expire(_, _) => true
  }

  /** What a node does at an event that can happen. */
  ghost function NodeStepFrom(node: NodeState, e: Event): NodeState {
    match e
    case Propose(n, unsigned) => node.(proposed := node.proposed + [SignedByValidator(n, unsigned)])
    case Attest(n, env, block) =>
      var cached := if Remembered(env, block) then node.(cache := node.cache[HashOf(block) := block]) else node;
      var patch := Attestation(env, n, block);
      if patch.Thrown? then cached
      else cached.(attested := node.attested + [Attested(env, block, patch.value.votes)])
    case Request(n, block, patches) =>
      node.(requested := node.requested + [Requested(RequestFor(block, patches), Assemble(block, patches))])
    case Finalize(n, env, request) =>
      var block := FinalizedBlock(env, n, node.cache, request);
      if block.Thrown? then node
      else node.(finalized := node.finalized + [Finalized(env, request, block.value)])
    case Expire(n, hash) => node.(cache := node.cache - {hash})
  }

  ghost function NodeStep(sys: System, e: Event): NodeState
    requires e.n in sys
  {
    if Possible(sys, e) then NodeStepFrom(sys[e.n], e) else sys[e.n]
  }

  ghost function Step(sys: System, e: Event): System {
    if e.n in sys then sys[e.n := NodeStep(sys, e)] else sys
  }

  ghost function Run(sys: System, events: seq<Event>): System {
    if events == [] then sys else Step(Run(sys, events[..|events| - 1]), events[|events| - 1])
  }

  // ---------------------------------------------------------------- nodes that take these steps

  /** Before the first round: the validator signs its block. */
  method SignProposal(n: NodeId, unsigned: Block) returns (block: Block)
    requires unsigned.signers == []
    ensures block == SignedByValidator(n, unsigned)
  {
    var blockObj := new BlockObj.Deserialize(unsigned);
    var signed := SignBlockAsValidator(n, blockObj);
    block := blockObj.Value();
  }

  /** Between the two rounds: the validator appends all patches and sends them to the attestors. */
  method PrepareRequest(blockSignedByV: Block, patches: seq<Patch>) returns (request: AttestSignaturesRequest, block: Block)
    ensures request == RequestFor(blockSignedByV, patches) && block == Assemble(blockSignedByV, patches)
  {
    var blockSignedByVA := new BlockObj.Deserialize(blockSignedByV);
    for j := 0 to |patches|
      invariant blockSignedByVA.Valid() && fresh(blockSignedByVA) && fresh(blockSignedByVA.txObjs)
      invariant blockSignedByVA.Value() == Assemble(blockSignedByV, patches[..j])
    {
      assert patches[..j + 1][..j] == patches[..j];
      AppendPatchAsValidator(blockSignedByVA, patches[j]);
    }
    assert patches[..|patches|] == patches;
    block := blockSignedByVA.Value();
    request := AttestSignaturesRequest(HashOf(blockSignedByV), HashOf(block), patches);
  }

  /** One event, carried out by the node it happens at; what the node then remembers and has done. */
  method Perform(node: Node, was: NodeState, e: Event) returns (now: NodeState)
    requires e.n == node.nodeId && was.cache == node.cachedBlocks
    requires e.Propose? ==> e.unsigned.signers == []
    modifies node`cachedBlocks
    ensures now == NodeStepFrom(was, e) && now.cache == node.cachedBlocks
  {
    hide Assemble, FinalizedBlock, Attestation, Remembered, SignedByValidator;
    now := was;
    match e {
      case Propose(n, unsigned) =>
        var block := SignProposal(n, unsigned);
        now := now.(proposed := now.proposed + [block]);
      case Attest(n, env, block) =>
        var patch := node.AttestBlock(env, block);
        now := now.(cache := node.cachedBlocks);
        if patch.Ok? {
          now := now.(attested := now.attested + [Attested(env, block, patch.value.votes)]);
        }
      case Request(n, block, patches) =>
        var request, assembled := PrepareRequest(block, patches);
        now := now.(requested := now.requested + [Requested(request, assembled)]);
      case Finalize(n, env, request) =>
        var block := node.AttestSignatures(env, request);
        if block.Ok? {
          now := now.(finalized := now.finalized + [Finalized(env, request, block.value)]);
        }
      case Expire(n, hash) =>
        node.cachedBlocks := node.cachedBlocks - {hash};
        now := now.(cache := node.cachedBlocks);
    }
  }

  /** Nodes that carry out the events of a run do exactly what the run says, and keep exactly what it says. */
  method Drive(nodes: map<NodeId, Node>, events: seq<Event>) returns (sys: System)
    requires forall n :: n in nodes ==> nodes[n].nodeId == n && nodes[n].cachedBlocks == map[]
    requires forall i :: 0 <= i < |events| ==> Possible(Run(Init(nodes.Keys), events[..i]), events[i])
    modifies set n | n in nodes :: nodes[n]
    ensures sys == Run(Init(nodes.Keys), events)
    ensures sys.Keys == nodes.Keys && forall n :: n in nodes ==> nodes[n].cachedBlocks == sys[n].cache
  {
    hide NodeStepFrom;
    sys := Init(nodes.Keys);
    for i := 0 to |events|
      invariant sys == Run(Init(nodes.Keys), events[..i]) && sys.Keys == nodes.Keys
      invariant forall n :: n in nodes ==> nodes[n].cachedBlocks == sys[n].cache
    {
      assert events[..i + 1][..i] == events[..i];
      var e := events[i];
      assert Possible(sys, e);
      var now := Perform(nodes[e.n], sys[e.n], e);
      sys := sys[e.n := now];
    }
    assert events[..|events|] == events;
  }

  // ---------------------------------------------------------------- what every run keeps

  ghost predicate CacheSound(sys: System, node: NodeState) {
    forall h :: h in node.cache ==>
      HashOf(node.cache[h]) == h && node.cache[h].signers != [] && AllGenuine(sys, node.cache[h].signers)
  }

  ghost predicate ProposalOf(n: NodeId, b: Block) {
    exists u: Block :: u.signers == [] && b == SignedByValidator(n, u)
  }

  ghost predicate ProposalsSound(n: NodeId, node: NodeState) {
    forall i :: 0 <= i < |node.proposed| ==> ProposalOf(n, node.proposed[i])
  }

  ghost predicate AttestationsSound(n: NodeId, node: NodeState) {
    forall i :: 0 <= i < |node.attested| ==>
      var a := node.attested[i]; Attestation(a.env, n, a.block) == Ok(Patch(a.votes, AttestorSignature(n, a)))
  }

  ghost predicate RequestsSound(node: NodeState) {
    forall i :: 0 <= i < |node.requested| ==>
      var r := node.requested[i];
      && r.request == RequestFor(r.request.initialBlockHash.block, r.request.attestations)
      && r.request.finalBlockHash == HashOf(r.block)
      && r.request.initialBlockHash.block in node.proposed
  }

  ghost predicate FinalizationSound(sys: System, n: NodeId, f: Finalized) {
    var initial := f.request.initialBlockHash.block;
    && OnlyValidatorSigned(initial)
    && f.block == Assemble(initial, f.request.attestations)
    && PatchesAccepted(f.env, n, initial, f.request.attestations)
    && FinalVerdict(f.env.check, f.block, f.env.random.contract.vnodes.Keys, f.env.random.contract.valPerBlock) == Success
    && AllGenuine(sys, f.block.signers)
  }

  ghost predicate NodeSound(sys: System, n: NodeId, node: NodeState) {
    && CacheSound(sys, node) && ProposalsSound(n, node) && AttestationsSound(n, node) && RequestsSound(node)
    && forall i :: 0 <= i < |node.finalized| ==> FinalizationSound(sys, n, node.finalized[i])
  }

  ghost predicate Sound(sys: System) {
    forall n :: n in sys ==> NodeSound(sys, n, sys[n])
  }

  /** Logs only grow. */
  ghost predicate Extends(node: NodeState, later: NodeState) {
    && node.proposed <= later.proposed && node.attested <= later.attested
    && node.requested <= later.requested && node.finalized <= later.finalized
  }

  ghost predicate Later(sys: System, later: System) {
    sys.Keys == later.Keys && forall n :: n in sys ==> Extends(sys[n], later[n])
  }

  lemma StepExtends(sys: System, e: Event)
    ensures Later(sys, Step(sys, e))
  {}

  lemma AssembledGenuine(sys: System, b: Block, patches: seq<Patch>)
    requires AllGenuine(sys, b.signers) && PatchesGenuine(sys, patches)
    ensures AllGenuine(sys, Assemble(b, patches).signers)
  {}

  lemma StaysGenuine(sys: System, later: System, sigs: seq<Signature>)
    requires Later(sys, later) && AllGenuine(sys, sigs)
    ensures AllGenuine(later, sigs)
  {}

  /** What holds of a node stays true while the rest of the system moves on. */
  lemma NodeSoundStays(sys: System, later: System, n: NodeId, node: NodeState)
    requires Later(sys, later) && NodeSound(sys, n, node)
    ensures NodeSound(later, n, node)
  {
    hide AllGenuine, PatchesAccepted, FinalVerdict, Assemble, ProposalsSound, AttestationsSound, RequestsSound, Extends;
    forall h | h in node.cache ensures AllGenuine(later, node.cache[h].signers) {
      StaysGenuine(sys, later, node.cache[h].signers);
    }
    forall i | 0 <= i < |node.finalized| ensures FinalizationSound(later, n, node.finalized[i]) {
      assert FinalizationSound(sys, n, node.finalized[i]);
      StaysGenuine(sys, later, node.finalized[i].block.signers);
    }
  }

  /** A copy that carries more signatures than the validator's cannot be finalized with any patch. */
  lemma FinalizedFromValidatorsBlock(env: NodeEnv, n: NodeId, initial: Block, patches: seq<Patch>)
    requires initial.signers != [] && PatchesAccepted(env, n, initial, patches)
    requires var contract := env.random.contract;
             FinalVerdict(env.check, Assemble(initial, patches), contract.vnodes.Keys, contract.valPerBlock) == Success
    ensures OnlyValidatorSigned(initial)
  {
    hide RecoverSigner, RecoverPatch, SNodeVerdict, AttestorVerdict;
    var contract := env.random.contract;
    var b := Assemble(initial, patches);
    AssembleShape(initial, patches);
    FinalizedShape(env.check, b, contract.vnodes.Keys, contract.valPerBlock);
    assert PatchAccepted(env, initial, patches, 0);
    SamePayload(initial, patches[0], b, |initial.signers|);
    forall i | 0 <= i < |initial.txs| ensures initial.txs[i].attestorVotes == [] {
      assert b.txs[i].attestorVotes == initial.txs[i].attestorVotes + Row(patches, i);
      assert |b.txs[i].attestorVotes| == |b.signers| - 1;
    }
  }

  /** A signature that is recovered in two places was made over one payload. */
  lemma SamePayload(initial: Block, p: Patch, b: Block, k: nat)
    requires 1 <= k < |b.signers| && b.signers[k] == p.signer
    requires PatchAddress(initial, p).Some?
    requires RecoverSigner(b, k).Ok? && RecoverSigner(b, k).value.Some?
    ensures WithColumn(initial, p.votes) == AttestorPayload(b, k)
    ensures |initial.signers| == 1
  {
    assert AttestorPayload(b, k).signers == [b.signers[0]];
  }

  lemma FinalizationStep(sys: System, n: NodeId, env: NodeEnv, request: AttestSignaturesRequest)
    requires n in sys && NodeSound(sys, n, sys[n]) && PatchesGenuine(sys, request.attestations)
    requires FinalizedBlock(env, n, sys[n].cache, request).Ok?
    ensures NodeSound(sys, n, NodeStep(sys, Event.Finalize(n, env, request)))
  {
    hide FinalVerdict, PatchesAccepted, Assemble, AllGenuine, PatchesGenuine;
    var node, node' := sys[n], NodeStep(sys, Event.Finalize(n, env, request));
    FinalizedFromValidatorsBlock(env, n, node.cache[request.initialBlockHash], request.attestations);
    AssembledGenuine(sys, node.cache[request.initialBlockHash], request.attestations);
    forall i | 0 <= i < |node'.finalized| ensures FinalizationSound(sys, n, node'.finalized[i]) {
      if i < |node.finalized| {
        assert node'.finalized[i] == node.finalized[i];
      }
    }
  }

  lemma RememberedIsSigned(env: NodeEnv, b: Block)
    requires Remembered(env, b)
    ensures b.signers != []
  {}

  lemma StepSound(sys: System, e: Event)
    requires Sound(sys) && e.n in sys
    ensures NodeSound(sys, e.n, NodeStep(sys, e))
  {
    hide FinalVerdict, PatchesAccepted, Remembered, Assemble, AllGenuine, PatchesGenuine, SignedByValidator, WithColumn, VotesOn;
    var node, node' := sys[e.n], NodeStep(sys, e);
    assert NodeSound(sys, e.n, node);
    match e
    case Propose(n, unsigned) =>
      assert ProposalsSound(n, node') by {
        if node' != node {
          assert ProposalOf(n, SignedByValidator(n, unsigned));
        }
      }
    case Attest(n, env, block) =>
      if Remembered(env, block) {
        RememberedIsSigned(env, block);
      }
    case Request(n, block, patches) =>
    case Finalize(n, env, request) =>
      if node' != node {
        FinalizationStep(sys, n, env, request);
      }
    case Expire(n, hash) =>
  }

  lemma {:induction false} RunSound(honest: set<NodeId>, events: seq<Event>)
    ensures Sound(Run(Init(honest), events))
    ensures Run(Init(honest), events).Keys == honest
  {
    hide NodeSound, NodeStep;
    if events == [] {
      forall n | n in honest ensures NodeSound(Init(honest), n, FRESH_NODE) {
        FreshSound(Init(honest), n);
      }
    } else {
      var e, sys := events[|events| - 1], Run(Init(honest), events[..|events| - 1]);
      RunSound(honest, events[..|events| - 1]);
      var later := Step(sys, e);
      StepExtends(sys, e);
      if e.n in sys {
        StepSound(sys, e);
      }
      forall n | n in later ensures NodeSound(later, n, later[n]) {
        NodeSoundStays(sys, later, n, later[n]);
      }
    }
  }

  lemma FreshSound(sys: System, n: NodeId)
    ensures NodeSound(sys, n, FRESH_NODE)
  {}

  // ---------------------------------------------------------------- cross-node agreement

  /**
   Cross-node agreement: in every run, an attestor that finalizes on a validator's request ends up
   with exactly the block that the validator assembled, has found its own signature among the
   patches, and has seen the block pass the final check.
   */
  lemma FinalizedIsWhatWasRequested(honest: set<NodeId>, events: seq<Event>, v: NodeId, r: Requested, a: NodeId, f: Finalized)
    requires var sys := Run(Init(honest), events);
             v in sys && a in sys && r in sys[v].requested && f in sys[a].finalized
    requires f.request.initialBlockHash == r.request.initialBlockHash && f.request.attestations == r.request.attestations
    ensures f.block == r.block
    ensures exists j :: 0 <= j < |f.request.attestations| &&
              PatchAddress(f.request.initialBlockHash.block, f.request.attestations[j]) == Some(a)
    ensures var b, patches := f.request.initialBlockHash.block, f.request.attestations;
            && (forall j :: 0 <= j < |patches| ==>
                  PatchAddress(b, patches[j]).Some? && PatchAddress(b, patches[j]).value in f.env.random.contract.vnodes)
            && (|patches| >= 2 ==> CheckAttestToken(f.env.random, PatchAddress(b, patches[0]), b.attestToken) == Ok(true))
    ensures FinalVerdict(f.env.check, f.block, f.env.random.contract.vnodes.Keys, f.env.random.contract.valPerBlock) == Success
    ensures HashOf(f.block) == r.request.finalBlockHash
  {
    hide FinalVerdict, PatchAccepted, Assemble, AllGenuine;
    var sys := Run(Init(honest), events);
    RunSound(honest, events);
    assert NodeSound(sys, v, sys[v]) && NodeSound(sys, a, sys[a]);
    var i :| 0 <= i < |sys[v].requested| && sys[v].requested[i] == r;
    var k :| 0 <= k < |sys[a].finalized| && sys[a].finalized[k] == f;
    assert FinalizationSound(sys, a, sys[a].finalized[k]);
    AcceptedMeans(f.env, a, f.request.initialBlockHash.block, f.request.attestations);
  }

  lemma AcceptedMeans(env: NodeEnv, n: NodeId, b: Block, patches: seq<Patch>)
    requires PatchesAccepted(env, n, b, patches)
    ensures forall j :: 0 <= j < |patches| ==>
              PatchAddress(b, patches[j]).Some? && PatchAddress(b, patches[j]).value in env.random.contract.vnodes
    ensures |patches| >= 2 ==> CheckAttestToken(env.random, PatchAddress(b, patches[0]), b.attestToken) == Ok(true)
  {
    hide PatchAddress, CheckAttestToken;
    forall j | 0 <= j < |patches|
      ensures PatchAddress(b, patches[j]).Some? && PatchAddress(b, patches[j]).value in env.random.contract.vnodes
    {
      assert PatchAccepted(env, b, patches, j);
    }
    assert |patches| >= 2 ==> PatchAccepted(env, b, patches, 1);
  }

  /**
   Two attestors finalize the same block exactly when they started from the same initial block and were
   given the same patches in the same order, up to votes that no transaction takes.
   */
  lemma AttestorsAgree(honest: set<NodeId>, events: seq<Event>, a: NodeId, f: Finalized, c: NodeId, g: Finalized)
    requires var sys := Run(Init(honest), events);
             a in sys && c in sys && f in sys[a].finalized && g in sys[c].finalized
    ensures f.block == g.block <==>
              && f.request.initialBlockHash == g.request.initialBlockHash
              && SamePatches(f.request.attestations, g.request.attestations, |f.request.initialBlockHash.block.txs|)
  {
    hide FinalVerdict, PatchesAccepted, Assemble, AllGenuine, SamePatches, OnlyValidatorSigned;
    var sys := Run(Init(honest), events);
    RunSound(honest, events);
    assert NodeSound(sys, a, sys[a]) && NodeSound(sys, c, sys[c]);
    var i :| 0 <= i < |sys[a].finalized| && sys[a].finalized[i] == f;
    var k :| 0 <= k < |sys[c].finalized| && sys[c].finalized[k] == g;
    assert FinalizationSound(sys, a, sys[a].finalized[i]) && FinalizationSound(sys, c, sys[c].finalized[k]);
    AssembleInjective(f.request.initialBlockHash.block, f.request.attestations,
                      g.request.initialBlockHash.block, g.request.attestations);
  }

  // ---------------------------------------------------------------- where the signatures of a finalized block come from

  lemma AttestedPayload(a: Block, votes: seq<VoteData>, b: Block, k: nat)
    requires OnlyValidatorSigned(a) && |votes| == |a.txs| && b.signers != [] && k >= 1
    requires WithColumn(a, votes) == AttestorPayload(b, k)
    ensures a == InitialBlock(b) && votes == ColumnOf(b, k)
  {
    var w, i := WithColumn(a, votes), InitialBlock(b);
    assert |w.txs| == |a.txs| && |AttestorPayload(b, k).txs| == |b.txs|;
    assert w.signers == a.signers && AttestorPayload(b, k).signers == [b.signers[0]];
    forall j | 0 <= j < |a.txs| ensures a.txs[j] == i.txs[j] && votes[j] == ColumnOf(b, k)[j] {
      assert w.txs[j] == a.txs[j].(attestorVotes := [votes[j]]);
      assert w.txs[j] == b.txs[j].(attestorVotes := [VoteAt(b.txs[j].attestorVotes, k - 1)]);
      assert a.txs[j].attestorVotes == [];
    }
    assert a.txs == i.txs;
  }

  lemma AttestationFacts(env: NodeEnv, n: NodeId, b: Block)
    requires Attestation(env, n, b).Ok?
    ensures OnlyValidatorSigned(b) && Remembered(env, b)
    ensures Attestation(env, n, b).value.votes == seq(|b.txs|, _ => Vote(ACCEPTED))
  {}

  /** An honest validator of a genuine block has proposed exactly the block that the others attested. */
  lemma ValidatorProposedIt(sys: System, b: Block, h: NodeId)
    requires Sound(sys) && AllGenuine(sys, b.signers) && h in sys
    requires RecoverSigner(b, 0) == Ok(Some(h))
    ensures InitialBlock(b) in sys[h].proposed
  {}

  /** An honest attestor of a genuine block has itself attested the initial block, with the votes the block shows for it. */
  lemma AttestorAttestedIt(sys: System, b: Block, k: nat, h: NodeId)
    requires Sound(sys) && AllGenuine(sys, b.signers) && h in sys
    requires k >= 1 && RecoverSigner(b, k) == Ok(Some(h))
    ensures exists a :: a in sys[h].attested && a.block == InitialBlock(b) && a.votes == ColumnOf(b, k) &&
              ProperlyAttested(a.env, a.block) && a.votes == seq(|b.txs|, _ => Vote(ACCEPTED))
  {
    hide FinalVerdict, Remembered, Genuine, SNodeVerdict, ProperlyAttested;
    var sig := b.signers[k];
    assert Genuine(sys, sig) && NodeSound(sys, h, sys[h]);
    assert sig.signer == h && sig.payload == AttestorPayload(b, k);
    var i := AttestorLogEntry(sys, b, k, h);
    var a := sys[h].attested[i];
    assert Attestation(a.env, h, a.block) == Ok(Patch(a.votes, AttestorSignature(h, a)));
    AttestationFacts(a.env, h, a.block);
    AttestationExactly(a.env, h, a.block);
    AttestedPayload(a.block, a.votes, b, k);
    assert a in sys[h].attested;
  }

  lemma AttestorLogEntry(sys: System, b: Block, k: nat, h: NodeId) returns (i: nat)
    requires h in sys && NodeSound(sys, h, sys[h]) && 1 <= k < |b.signers|
    requires b.signers[k] == Signature(h, AttestorPayload(b, k)) && Genuine(sys, b.signers[k])
    ensures i < |sys[h].attested| && AttestorSignature(h, sys[h].attested[i]) == b.signers[k]
  {
    var sig := b.signers[k];
    forall p | 0 <= p < |sys[h].proposed| ensures sys[h].proposed[p].signers != [sig] {
      assert ProposalOf(h, sys[h].proposed[p]);
      var u: Block :| u.signers == [] && sys[h].proposed[p] == SignedByValidator(h, u);
      assert VotedByValidator(u).signers == [] && |AttestorPayload(b, k).signers| == 1;
    }
    i :| 0 <= i < |sys[h].attested| && AttestorSignature(h, sys[h].attested[i]) == sig;
  }

  /**
   Nothing is finalized in an honest node's name: in every run, each honest signer of a finalized
   block has done its part for exactly this block. The validator proposed it; an attestor applied
   the attestor's checks to the same initial block and accepted every transaction of it.
   */
  lemma FinalizedProvenance(honest: set<NodeId>, events: seq<Event>, n: NodeId, f: Finalized, k: nat, h: NodeId)
    requires var sys := Run(Init(honest), events); n in sys && f in sys[n].finalized
    requires h in honest && RecoverSigner(f.block, k) == Ok(Some(h))
    ensures h in Run(Init(honest), events)
    ensures var node := Run(Init(honest), events)[h];
            if k == 0 then InitialBlock(f.block) in node.proposed
            else exists a :: a in node.attested && a.block == InitialBlock(f.block) && a.votes == ColumnOf(f.block, k) &&
                   ProperlyAttested(a.env, a.block) && a.votes == seq(|f.block.txs|, _ => Vote(ACCEPTED))
  {
    hide FinalVerdict, PatchesAccepted, Assemble, AllGenuine, Remembered, InitialBlock, ColumnOf, ProperlyAttested;
    var sys := Run(Init(honest), events);
    RunSound(honest, events);
    assert NodeSound(sys, n, sys[n]);
    var i :| 0 <= i < |sys[n].finalized| && sys[n].finalized[i] == f;
    assert FinalizationSound(sys, n, sys[n].finalized[i]);
    if k == 0 {
      ValidatorProposedIt(sys, f.block, h);
    } else {
      AttestorAttestedIt(sys, f.block, k, h);
    }
  }
}
